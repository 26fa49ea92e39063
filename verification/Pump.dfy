/** Writing: the pump that takes messages, throttles them and keeps the connection alive. */
module Pumps {
  import opened Bytes
  import opened Seqs
  import opened FloodControl
  import opened Queues

  /** "PONG", and "PING :ping" with CR LF. */
  const PONG: bytes := [0x50, 0x4F, 0x4E, 0x47]
  const PING: bytes := [0x50, 0x49, 0x4E, 0x47, 0x20, 0x3A, 0x70, 0x69, 0x6E, 0x67, 13, 10]

  predicate IsPong(m: bytes) {
    PONG <= m
  }

  /** What a case of the `select` statement does, with the clock readings taken on the way and
      whether its write succeeds. `Message`: the penalty is computed at `t`, the write or the timer
      follows at `w`. `Wake`: written at `w`, penalty at `t`, timer at `a`. `Beat`: the keepalive
      timer fires, written at `w`. */
  datatype Event =
    | Message(m: bytes, t: int, w: int, ok: bool)
    | Wake(w: int, t: int, a: int, ok: bool)
    | Beat(w: int, ok: bool)
    | Kill

  /** One call to the flood control: its time, its charge, the penalty it started from, its answer. */
  datatype Call = Call(t: int, charge: int, entry: int, sleep: int)

  /** The pump. `sleeper` and `pinger` are the times at which their timers fire; `lost` is the
      message whose write failed. */
  datatype State = State(
    queue: seq<bytes>,
    sleeper: Option<int>,
    pinger: Option<int>,
    penalty: int,
    lastwrite: int,
    now: int,
    written: seq<bytes>,
    lost: seq<bytes>,
    stopped: bool,
    calls: seq<Call>)

  function Start(cfg: Config, zero: int, now: int): State {
    State([], None, if cfg.keepalive != 0 then Some(now + cfg.keepalive) else None,
          zero, zero, now, [], [], false, [])
  }

  /** Which cases the `select` can take next; clocks do not run backwards and timers do not fire early. */
  predicate Enabled(s: State, e: Event) {
    !s.stopped &&
    match e
    case Message(_, t, w, _) => s.now <= t <= w
    case Wake(w, t, a, _) => s.sleeper.Some? && s.sleeper.value <= w && s.now <= w <= t <= a
    case Beat(w, _) => s.pinger.Some? && s.pinger.value <= w && s.now <= w
    case Kill => true
  }

  function Write(s: State, m: bytes, w: int, ok: bool): State {
    if ok then s.(written := s.written + [m], lastwrite := w, now := w)
    else s.(lost := s.lost + [m], stopped := true, now := w)
  }

  function Push(s: State, m: bytes): State {
    if m == [] then s else s.(queue := s.queue + [m])
  }

  function Account(cfg: Config, s: State, t: int, length: nat): (State, int)
    requires Usable(cfg)
  {
    var entry := Entry(s.penalty, s.lastwrite);
    var sleep := SleepTime(cfg, entry, t, length);
    var call := Call(t, Charge(cfg, length), entry, sleep);
    (s.(penalty := entry + Charge(cfg, length), now := t, calls := s.calls + [call]), sleep)
  }

  /** After a timed write: the timer is set again while messages wait, for the length just written. */
  function Rearmed(cfg: Config, s: State, t: int, a: int, length: nat): State
    requires Usable(cfg)
  {
    if s.queue == [] then s.(sleeper := None)
    else
      var (s', sleep) := Account(cfg, s, t, length);
      s'.(sleeper := Some(a + sleep), now := a)
  }

  /** A message that is accounted for is written at once, or waits for the timer. */
  function Accounted(cfg: Config, s: State, m: bytes, t: int, w: int, ok: bool): State
    requires Usable(cfg)
  {
    var (s', sleep) := Account(cfg, s, t, |m|);
    if sleep == 0 then Write(s', m, w, ok) else Push(s', m).(sleeper := Some(w + sleep), now := w)
  }

  /** The timer fires: the first message is written. */
  function Woken(cfg: Config, s: State, w: int, t: int, a: int, ok: bool): State
    requires Usable(cfg) && s.queue != []
  {
    var s' := Write(s.(queue := s.queue[1..]), s.queue[0], w, ok);
    if ok then Rearmed(cfg, s', t, a, |s.queue[0]|) else s'
  }

  /** The keepalive timer fires: a ping is queued behind waiting messages, or written. */
  function Beaten(cfg: Config, s: State, ping: bytes, w: int, ok: bool): State {
    if s.sleeper.Some? then Push(s, ping).(now := w, pinger := Some(w + cfg.keepalive))
    else if ok then Write(s, ping, w, ok).(pinger := Some(w + cfg.keepalive))
    else Write(s, ping, w, ok)
  }

  function Step(cfg: Config, s: State, e: Event): State
    requires Usable(cfg)
  {
    match e
    case Message(m, t, w, ok) =>
      if m == [] then s.(now := w)
      else if IsPong(m) then Write(s, m, w, ok)
      else if s.sleeper == None then Accounted(cfg, s, m, t, w, ok)
      else Push(s, m).(now := w)
    case Wake(w, t, a, ok) => if s.queue == [] then s else Woken(cfg, s, w, t, a, ok)
    case Beat(w, ok) => Beaten(cfg, s, PING, w, ok)
    case Kill => s.(stopped := true)
  }

  /** A run: cases that are not enabled do not happen. */
  function Run(cfg: Config, s: State, events: seq<Event>): State
    requires Usable(cfg)
  {
    if events == [] then s
    else
      var before := Run(cfg, s, events[..|events| - 1]);
      var e := events[|events| - 1];
      if Enabled(before, e) then Step(cfg, before, e) else before
  }

  // ---- conservation and order --------------------------------------------------------

  function NoPongs(ms: seq<bytes>): seq<bytes> {
    if ms == [] then []
    else NoPongs(ms[..|ms| - 1]) + if IsPong(ms[|ms| - 1]) then [] else [ms[|ms| - 1]]
  }

  /** What a case accepts for the queue: messages that are not PONGs, and keepalive pings. */
  function Accepts(e: Event): seq<bytes> {
    match e
    case Message(m, _, _, _) => if m == [] || IsPong(m) then [] else [m]
    case Wake(_, _, _, _) => []
    case Beat(_, _) => [PING]
    case Kill => []
  }

  function Accepted(cfg: Config, s: State, events: seq<Event>): seq<bytes>
    requires Usable(cfg)
  {
    if events == [] then []
    else
      var init, e := events[..|events| - 1], events[|events| - 1];
      Accepted(cfg, s, init) + if Enabled(Run(cfg, s, init), e) then Accepts(e) else []
  }

  /** Written, lost and queued messages are, in this order, the accepted ones. */
  ghost predicate Conserved(s: State, accepted: seq<bytes>) {
    && NoPongs(s.written) + NoPongs(s.lost) + s.queue == accepted
    && (forall m :: m in s.queue ==> m != [] && !IsPong(m))
    && |s.lost| <= 1
    && (s.lost != [] ==> s.stopped)
    && (!s.stopped ==> (s.sleeper.Some? <==> s.queue != []))
  }

  lemma PingIsNoPong()
    ensures !IsPong(PING)
  {
    assert PING[1] != PONG[1];
  }

  lemma NoPongsSnoc(ms: seq<bytes>, m: bytes)
    ensures NoPongs(ms + [m]) == NoPongs(ms) + if IsPong(m) then [] else [m]
  {
    assert (ms + [m])[..|ms|] == ms;
  }

  lemma WriteConserves(s: State, queue: seq<bytes>, m: bytes, w: int, ok: bool, accepted: seq<bytes>)
    requires s.lost == [] && !s.stopped && NoPongs(s.written) + (if IsPong(m) then [] else [m]) + queue == accepted
    ensures var r := Write(s.(queue := queue), m, w, ok);
            NoPongs(r.written) + NoPongs(r.lost) + r.queue == accepted
  {
    NoPongsSnoc(s.written, m);
    NoPongsSnoc(s.lost, m);
    assert s.lost + [m] == [m];
    assert NoPongs([]) == [];
  }

  lemma PongConserves(s: State, m: bytes, w: int, ok: bool, accepted: seq<bytes>)
    requires Conserved(s, accepted) && !s.stopped && IsPong(m)
    ensures Conserved(Write(s, m, w, ok), accepted)
  {
    var r := Write(s, m, w, ok);
    NoPongsSnoc(s.written, m);
    NoPongsSnoc([], m);
    assert s.lost == [] && [] + [m] == [m] && NoPongs([]) == [];
    assert NoPongs(r.written) == NoPongs(s.written) + [] == NoPongs(s.written);
    assert NoPongs(r.lost) == [] && r.queue == s.queue;
  }

  /** A message that may go out at once. */
  lemma DirectConserves(s: State, m: bytes, w: int, ok: bool, accepted: seq<bytes>)
    requires Conserved(s, accepted) && !s.stopped && s.sleeper == None && !IsPong(m)
    ensures Conserved(Write(s, m, w, ok), accepted + [m])
  {
    assert NoPongs(s.lost) == [];
    assert s.queue == [] && s.(queue := []) == s;
    assert NoPongs(s.written) + [] + [] == accepted;
    assert NoPongs(s.written) + [m] + [] == accepted + [m];
    WriteConserves(s, [], m, w, ok, accepted + [m]);
  }

  lemma PushConserves(s: State, m: bytes, accepted: seq<bytes>, sleeper: Option<int>, now: int)
    requires Conserved(s, accepted) && !s.stopped && m != [] && !IsPong(m) && sleeper.Some?
    ensures Conserved(Push(s, m).(sleeper := sleeper, now := now), accepted + [m])
  {
  }

  lemma MessageConserves(cfg: Config, s: State, m: bytes, t: int, w: int, ok: bool, accepted: seq<bytes>)
    requires Usable(cfg) && Conserved(s, accepted) && !s.stopped && m != [] && !IsPong(m)
    ensures Conserved(Step(cfg, s, Message(m, t, w, ok)), accepted + [m])
  {
    if s.sleeper == None {
      var (s', sleep) := Account(cfg, s, t, |m|);
      if sleep == 0 {
        DirectConserves(s', m, w, ok, accepted);
      } else {
        PushConserves(s', m, accepted, Some(w + sleep), w);
      }
    } else {
      PushConserves(s, m, accepted, s.sleeper, w);
    }
  }

  lemma WakeConserves(cfg: Config, s: State, e: Event, accepted: seq<bytes>)
    requires Usable(cfg) && Conserved(s, accepted) && !s.stopped && e.Wake?
    ensures Conserved(Step(cfg, s, e), accepted)
  {
    if s.queue != [] {
      var head, tail := s.queue[0], s.queue[1..];
      assert NoPongs(s.lost) == [] && head in s.queue;
      assert s.queue == [head] + tail;
      assert NoPongs(s.written) + [] + s.queue == NoPongs(s.written) + [head] + tail;
      WriteConserves(s, tail, head, e.w, e.ok, accepted);
      var r := Write(s.(queue := tail), head, e.w, e.ok);
      assert forall m :: m in tail ==> m in s.queue;
      assert r.queue == tail && |r.lost| <= 1;
    }
  }

  lemma BeatConserves(cfg: Config, s: State, w: int, ok: bool, accepted: seq<bytes>)
    requires Usable(cfg) && Conserved(s, accepted) && !s.stopped
    ensures Conserved(Step(cfg, s, Beat(w, ok)), accepted + [PING])
  {
    PingIsNoPong();
    if s.sleeper == None {
      DirectConserves(s, PING, w, ok, accepted);
    } else {
      PushConserves(s, PING, accepted, s.sleeper, w);
    }
  }

  lemma StepConserves(cfg: Config, s: State, e: Event, accepted: seq<bytes>)
    requires Usable(cfg) && Conserved(s, accepted) && Enabled(s, e)
    ensures Conserved(Step(cfg, s, e), accepted + Accepts(e))
  {
    assert accepted + [] == accepted;
    match e
    case Message(m, t, w, ok) =>
      if m != [] && IsPong(m) {
        PongConserves(s, m, w, ok, accepted);
      } else if m != [] {
        MessageConserves(cfg, s, m, t, w, ok, accepted);
      }
    case Wake(_, _, _, _) => WakeConserves(cfg, s, e, accepted);
    case Beat(w, ok) => BeatConserves(cfg, s, w, ok, accepted);
    case Kill =>
  }

  /** Over every run: the timer runs exactly while messages wait, and until the first write error the
      written messages that are not PONGs, followed by the queue, are the accepted ones in order. */
  lemma {:induction false} RunConserves(cfg: Config, zero: int, now: int, events: seq<Event>)
    requires Usable(cfg)
    ensures Conserved(Run(cfg, Start(cfg, zero, now), events), Accepted(cfg, Start(cfg, zero, now), events))
  {
    if events != [] {
      var init, e := events[..|events| - 1], events[|events| - 1];
      RunConserves(cfg, zero, now, init);
      var s := Run(cfg, Start(cfg, zero, now), init);
      if Enabled(s, e) {
        StepConserves(cfg, s, e, Accepted(cfg, Start(cfg, zero, now), init));
      }
    }
  }

  // ---- the flood bound -----------------------------------------------------------------

  /** The wait lies in [0, timeout], and the penalty is no further ahead of the clock than `lead`. */
  predicate Within(cfg: Config, c: Call, lead: int) {
    0 <= c.sleep <= cfg.timeout && c.charge >= 0 && c.entry - c.t <= lead
  }

  /** A call starts from no less than the penalty and the time of the one before, and not before its
      wait is over. */
  predicate Follows(last: Call, c: Call) {
    c.entry >= last.entry + last.charge && c.entry >= last.t && c.t >= last.t + last.sleep
  }

  ghost predicate Throttled(cfg: Config, calls: seq<Call>, lead: int) {
    && (forall i :: 0 <= i < |calls| ==> Within(cfg, calls[i], lead))
    && (forall i :: 0 < i < |calls| ==> Follows(calls[i - 1], calls[i]))
  }

  /** The earliest time of the next call to the flood control. */
  function NextCall(s: State): int {
    if s.sleeper.Some? && s.sleeper.value > s.now then s.sleeper.value else s.now
  }

  ghost predicate Paced(cfg: Config, s: State, lead: int) {
    && Throttled(cfg, s.calls, lead)
    && s.lastwrite <= s.now
    && s.penalty - NextCall(s) <= lead
    && (s.calls != [] ==>
          var last := s.calls[|s.calls| - 1];
          && s.penalty >= last.entry + last.charge
          && last.t + last.sleep <= NextCall(s)
          && last.t <= s.now
          && (s.sleeper == None && !s.stopped ==> s.lastwrite >= last.t))
  }

  /** No message that may be accounted for costs more than `most`. */
  ghost predicate Affordable(cfg: Config, most: nat, ms: seq<bytes>)
    requires Usable(cfg)
  {
    forall m :: m in ms ==> Charge(cfg, |m|) <= most
  }

  lemma ThrottledSnoc(cfg: Config, calls: seq<Call>, c: Call, lead: int)
    requires Throttled(cfg, calls, lead) && Within(cfg, c, lead)
    requires calls != [] ==> Follows(calls[|calls| - 1], c)
    ensures Throttled(cfg, calls + [c], lead)
  {
    var longer := calls + [c];
    forall i | 0 < i < |longer| ensures Follows(longer[i - 1], longer[i]) {
      if i < |calls| {
        assert longer[i] == calls[i] && longer[i - 1] == calls[i - 1];
      }
    }
  }

  /** A call made after the last wait is over and after a write keeps the pace. */
  lemma AccountPaces(cfg: Config, s: State, t: int, length: nat, most: nat)
    requires Usable(cfg) && Charge(cfg, length) <= most <= cfg.timeout
    requires Throttled(cfg, s.calls, Lead(cfg, most)) && s.lastwrite <= t && s.penalty - t <= Lead(cfg, most)
    requires s.calls != [] ==>
               var last := s.calls[|s.calls| - 1];
               s.penalty >= last.entry + last.charge && t >= last.t + last.sleep && s.lastwrite >= last.t
    ensures var (r, sleep) := Account(cfg, s, t, length);
            && Throttled(cfg, r.calls, Lead(cfg, most))
            && r.penalty - (t + sleep) <= Lead(cfg, most)
            && 0 <= sleep
  {
    var entry := Entry(s.penalty, s.lastwrite);
    ChargeNonNegative(cfg, length);
    SleepBounded(cfg, entry, t, length);
    LeadKept(cfg, most, entry, t, length);
    ThrottledSnoc(cfg, s.calls, Call(t, Charge(cfg, length), entry, SleepTime(cfg, entry, t, length)), Lead(cfg, most));
  }

  lemma WritePaces(cfg: Config, s: State, m: bytes, w: int, ok: bool, lead: int)
    requires Paced(cfg, s, lead) && s.now <= w
    ensures Paced(cfg, Write(s, m, w, ok), lead)
  {
  }

  lemma PushPaces(cfg: Config, s: State, m: bytes, w: int, lead: int)
    requires Paced(cfg, s, lead) && s.now <= w
    ensures Paced(cfg, Push(s, m).(now := w), lead)
  {
  }

  /** A message accounted for while no timer runs. */
  lemma MessagePaces(cfg: Config, s: State, m: bytes, t: int, w: int, ok: bool, most: nat)
    requires Usable(cfg) && most <= cfg.timeout && Charge(cfg, |m|) <= most
    requires Paced(cfg, s, Lead(cfg, most)) && s.now <= t <= w && s.sleeper == None && !s.stopped
    requires m != [] && !IsPong(m)
    ensures Paced(cfg, Step(cfg, s, Message(m, t, w, ok)), Lead(cfg, most))
  {
    AccountPaces(cfg, s, t, |m|, most);
    TimedPaces(cfg, s, m, t, w, ok, Lead(cfg, most));
  }

  lemma TimedPaces(cfg: Config, s: State, m: bytes, t: int, w: int, ok: bool, lead: int)
    requires Usable(cfg) && t <= w && s.lastwrite <= t && s.sleeper == None
    requires var (r, sleep) := Account(cfg, s, t, |m|);
             Throttled(cfg, r.calls, lead) && r.penalty - (t + sleep) <= lead && 0 <= sleep
    ensures Paced(cfg, Accounted(cfg, s, m, t, w, ok), lead)
  {
    var (r, sleep) := Account(cfg, s, t, |m|);
    if sleep == 0 {
      AccountedPaces(cfg, s, t, w, |m|, None, lead);
      WrittenPaces(cfg, r.(sleeper := None, now := w), m, w, ok, lead);
    } else {
      AccountedPaces(cfg, s, t, w, |m|, Some(w + sleep), lead);
    }
  }

  /** After a call the timer is set, or the message is written at once. */
  ghost predicate Ready(cfg: Config, s: State, lead: int) {
    && Throttled(cfg, s.calls, lead)
    && s.calls != []
    && s.lastwrite <= s.now
    && s.penalty - NextCall(s) <= lead
    && (var last := s.calls[|s.calls| - 1];
        && s.penalty >= last.entry + last.charge
        && last.t + last.sleep <= NextCall(s)
        && last.t <= s.now)
  }

  lemma AccountedPaces(cfg: Config, s: State, t: int, w: int, length: nat, sleeper: Option<int>, lead: int)
    requires Usable(cfg) && t <= w && s.lastwrite <= t
    requires var (r, sleep) := Account(cfg, s, t, length);
             && Throttled(cfg, r.calls, lead) && r.penalty - (t + sleep) <= lead && 0 <= sleep
             && sleeper == if sleep == 0 then None else Some(w + sleep)
    ensures Ready(cfg, Account(cfg, s, t, length).0.(sleeper := sleeper, now := w), lead)
  {
  }

  lemma WrittenPaces(cfg: Config, s: State, m: bytes, w: int, ok: bool, lead: int)
    requires Ready(cfg, s, lead) && s.now == w
    ensures Paced(cfg, Write(s, m, w, ok), lead)
  {
  }

  lemma WakePaces(cfg: Config, s: State, w: int, t: int, a: int, ok: bool, most: nat)
    requires Usable(cfg) && most <= cfg.timeout && Affordable(cfg, most, s.queue) && s.queue != []
    requires Paced(cfg, s, Lead(cfg, most)) && Enabled(s, Wake(w, t, a, ok))
    ensures Paced(cfg, Woken(cfg, s, w, t, a, ok), Lead(cfg, most))
  {
    var r := Write(s.(queue := s.queue[1..]), s.queue[0], w, ok);
    assert s.queue[0] in s.queue;
    if ok {
      RearmedPaces(cfg, r, t, a, |s.queue[0]|, most);
    }
  }

  /** After a timed write at or after the end of the wait. */
  lemma RearmedPaces(cfg: Config, s: State, t: int, a: int, length: nat, most: nat)
    requires Usable(cfg) && most <= cfg.timeout && Charge(cfg, length) <= most
    requires Throttled(cfg, s.calls, Lead(cfg, most)) && s.lastwrite == s.now <= t <= a && !s.stopped
    requires s.penalty - s.now <= Lead(cfg, most)
    requires s.calls != [] ==>
               var last := s.calls[|s.calls| - 1];
               s.penalty >= last.entry + last.charge && s.now >= last.t + last.sleep && s.lastwrite >= last.t
    ensures Paced(cfg, Rearmed(cfg, s, t, a, length), Lead(cfg, most))
  {
    if s.queue != [] {
      AccountPaces(cfg, s, t, length, most);
    }
  }

  lemma StepPaces(cfg: Config, s: State, e: Event, most: nat)
    requires Usable(cfg) && most <= cfg.timeout && Affordable(cfg, most, s.queue) && Affordable(cfg, most, Accepts(e))
    requires Paced(cfg, s, Lead(cfg, most)) && Enabled(s, e)
    ensures Paced(cfg, Step(cfg, s, e), Lead(cfg, most)) && Affordable(cfg, most, Step(cfg, s, e).queue)
  {
    StepAffords(cfg, s, e, most);
    match e
    case Message(m, t, w, ok) =>
      if m != [] && !IsPong(m) && s.sleeper == None {
        assert m in Accepts(e);
        MessagePaces(cfg, s, m, t, w, ok, most);
      } else {
        UnaccountedPaces(cfg, s, m, t, w, ok, Lead(cfg, most));
      }
    case Wake(w, t, a, ok) =>
      if s.queue != [] {
        WakePaces(cfg, s, w, t, a, ok, most);
      }
    case Beat(w, ok) =>
      BeatPaces(cfg, s, PING, w, ok, Lead(cfg, most));
    case Kill =>
  }

  lemma UnaccountedPaces(cfg: Config, s: State, m: bytes, t: int, w: int, ok: bool, lead: int)
    requires Usable(cfg) && Paced(cfg, s, lead) && s.now <= w && (m == [] || IsPong(m) || s.sleeper.Some?)
    ensures Paced(cfg, Step(cfg, s, Message(m, t, w, ok)), lead)
  {
    if m != [] && IsPong(m) {
      WritePaces(cfg, s, m, w, ok, lead);
    } else {
      PushPaces(cfg, s, m, w, lead);
    }
  }

  lemma BeatPaces(cfg: Config, s: State, ping: bytes, w: int, ok: bool, lead: int)
    requires Paced(cfg, s, lead) && s.now <= w
    ensures Paced(cfg, Beaten(cfg, s, ping, w, ok), lead)
  {
    if s.sleeper.Some? {
      PushPaces(cfg, s, ping, w, lead);
    } else {
      WritePaces(cfg, s, ping, w, ok, lead);
    }
  }

  lemma StepAffords(cfg: Config, s: State, e: Event, most: nat)
    requires Usable(cfg) && Affordable(cfg, most, s.queue) && Affordable(cfg, most, Accepts(e))
    ensures Affordable(cfg, most, Step(cfg, s, e).queue)
  {
    match e
    case Message(m, _, _, _) =>
      if m != [] && !IsPong(m) {
        assert m in Accepts(e);
      }
    case Wake(_, _, _, _) =>
    case Beat(_, _) =>
      assert PING in Accepts(e);
    case Kill =>
  }

  /** Over every run whose charges are at most `most`, and that at most the timeout, the penalty is never
      more than `Lead` ahead of the clock at a call, and every wait lies in [0, timeout]. */
  lemma {:induction false} RunThrottled(cfg: Config, zero: int, now: int, events: seq<Event>, most: nat)
    requires Usable(cfg) && most <= cfg.timeout && zero <= now
    requires forall e :: e in events ==> Affordable(cfg, most, Accepts(e))
    ensures var s := Run(cfg, Start(cfg, zero, now), events);
            Paced(cfg, s, Lead(cfg, most)) && Affordable(cfg, most, s.queue)
  {
    if events != [] {
      var init, e := events[..|events| - 1], events[|events| - 1];
      assert events == init + [e];
      RunThrottled(cfg, zero, now, init, most);
      var s := Run(cfg, Start(cfg, zero, now), init);
      if Enabled(s, e) {
        StepPaces(cfg, s, e, most);
      }
    }
  }

  function Charges(calls: seq<Call>): int {
    if calls == [] then 0 else calls[0].charge + Charges(calls[1..])
  }

  lemma {:induction false} ChargesAddUp(cfg: Config, calls: seq<Call>, lead: int, i: nat, j: nat)
    requires Throttled(cfg, calls, lead) && i <= j < |calls|
    ensures Charges(calls[i..j]) <= calls[j].entry - calls[i].entry
    decreases j - i
  {
    if i < j {
      assert calls[i..j][0] == calls[i] && calls[i..j][1..] == calls[i + 1..j];
      ChargesAddUp(cfg, calls, lead, i + 1, j);
    }
  }

  /** In any window of a run the charges are at most the elapsed time plus the lead. */
  lemma WindowBounded(cfg: Config, zero: int, now: int, events: seq<Event>, most: nat, i: nat, j: nat)
    requires Usable(cfg) && most <= cfg.timeout && zero <= now
    requires forall e :: e in events ==> Affordable(cfg, most, Accepts(e))
    requires 0 < i <= j < |Run(cfg, Start(cfg, zero, now), events).calls|
    ensures var calls := Run(cfg, Start(cfg, zero, now), events).calls;
            Charges(calls[i..j]) <= calls[j].t - calls[i - 1].t + Lead(cfg, most)
  {
    RunThrottled(cfg, zero, now, events, most);
    ChargesAddUp(cfg, Run(cfg, Start(cfg, zero, now), events).calls, Lead(cfg, most), i, j);
  }

  /** The penalty never decreases. */
  lemma PenaltyGrows(cfg: Config, s: State, e: Event)
    requires Usable(cfg)
    ensures Step(cfg, s, e).penalty >= s.penalty
  {
    if e.Message? {
      ChargeNonNegative(cfg, |e.m|);
    } else if s.queue != [] {
      ChargeNonNegative(cfg, |s.queue[0]|);
    }
  }
}
