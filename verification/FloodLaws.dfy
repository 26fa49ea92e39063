/** What a call to the flood control charges and answers, that bursts are held back, and that the
    keepalive goes on. */
module FloodLaws {
  import opened Bytes
  import opened Seqs
  import opened FloodControl
  import opened Pumps

  // ---- rounding --------------------------------------------------------------------------

  /** The multiple of `scale` next to a duration: half a scale is added, and the rest cut off toward zero. */
  ghost predicate IsRounded(scale: nat, d: int, r: int)
    requires scale > 0
  {
    && r % scale == 0
    && if d + scale / 2 >= 0 then r <= d + scale / 2 < r + scale else r - scale < d + scale / 2 <= r
  }

  lemma OneMore(q: int, s: nat)
    ensures (q + 1) * s == q * s + s
  {
  }

  lemma Remainder(x: int, s: nat, q: int, r: int)
    requires s > 0 && x == q * s + r && 0 <= r < s
    ensures x % s == r
  {
    var p := x / s;
    assert x == p * s + x % s;
    SameQuotient(s, p, x % s, q, r);
  }

  lemma SameQuotient(s: nat, p: int, a: int, q: int, b: int)
    requires p * s + a == q * s + b && 0 <= a < s && 0 <= b < s
    ensures a == b
  {
    if p < q {
      MultiplyKeepsOrder(p + 1, q, s);
      OneMore(p, s);
    } else if q < p {
      MultiplyKeepsOrder(q + 1, p, s);
      OneMore(q, s);
    }
  }

  lemma MultipleOf(q: int, s: nat)
    requires s > 0
    ensures q * s % s == 0
  {
    Remainder(q * s, s, q, 0);
  }

  lemma MultiplesApart(s: nat, a: int, b: int)
    requires s > 0 && a % s == 0 && b % s == 0 && a - b < s && b - a < s
    ensures a == b
  {
    var p, q := a / s, b / s;
    if p < q {
      MultiplyKeepsOrder(p + 1, q, s);
      OneMore(p, s);
    } else if q < p {
      MultiplyKeepsOrder(q + 1, p, s);
      OneMore(q, s);
    }
  }

  lemma RoundIsRounded(cfg: Config, d: int)
    requires Usable(cfg)
    ensures IsRounded(cfg.scale, d, RoundToScale(cfg, d))
  {
    var y, s := d + cfg.scale / 2, cfg.scale;
    MultipleOf(TruncDiv(y, s), s);
    if y >= 0 {
      DivideBounds(y, s);
    } else {
      DivideBounds(-y, s);
      assert TruncDiv(y, s) * s == -(-y / s * s);
    }
  }

  /** There is one such multiple, and the program finds it. */
  lemma RoundExactly(cfg: Config, d: int, r: int)
    requires Usable(cfg)
    ensures r == RoundToScale(cfg, d) <==> IsRounded(cfg.scale, d, r)
  {
    RoundIsRounded(cfg, d);
    if IsRounded(cfg.scale, d, r) {
      MultiplesApart(cfg.scale, r, RoundToScale(cfg, d));
    }
  }

  lemma RoundNear(cfg: Config, d: int)
    requires Usable(cfg) && d >= 0
    ensures RoundToScale(cfg, d) % cfg.scale == 0
    ensures 2 * (RoundToScale(cfg, d) - d) <= cfg.scale && 2 * (d - RoundToScale(cfg, d)) <= cfg.scale
  {
    RoundIsRounded(cfg, d);
  }

  // ---- one call --------------------------------------------------------------------------

  /** The multiple of the scale next to `scale * length / factor`; nothing without a factor. */
  ghost predicate IsLengthCharge(cfg: Config, length: nat, extra: int)
    requires Usable(cfg)
  {
    && extra % cfg.scale == 0
    && if cfg.lenPenaltyFactor == 0 then extra == 0
       else
         var share := cfg.scale * length / cfg.lenPenaltyFactor;
         2 * (extra - share) <= cfg.scale && 2 * (share - extra) <= cfg.scale
  }

  lemma LengthCharged(cfg: Config, length: nat)
    requires Usable(cfg)
    ensures IsLengthCharge(cfg, length, Charge(cfg, length) - cfg.basestep)
  {
    if cfg.lenPenaltyFactor > 0 {
      DivideBounds(cfg.scale * length, cfg.lenPenaltyFactor);
      RoundNear(cfg, cfg.scale * length / cfg.lenPenaltyFactor);
    } else {
      ZeroRounds(cfg);
    }
  }

  /** A call adds the base step to the penalty, and the charge for the length. */
  lemma ChargedExactly(cfg: Config, s: State, t: int, length: nat)
    requires Usable(cfg)
    ensures var entry := if s.lastwrite > s.penalty then s.lastwrite else s.penalty;
            IsLengthCharge(cfg, length, Account(cfg, s, t, length).0.penalty - entry - cfg.basestep)
  {
    LengthCharged(cfg, length);
  }

  lemma ZeroRounds(cfg: Config)
    requires Usable(cfg)
    ensures RoundToScale(cfg, 0) == 0
  {
    assert 0 % cfg.scale == 0;
    RoundExactly(cfg, 0, 0);
  }

  /** A call sleeps exactly when the rounded lead of the penalty has reached the timeout and the rounded
      excess after the charge is positive, and then for that excess, at most for the timeout. */
  lemma SleepsExactly(cfg: Config, s: State, t: int, length: nat, lead: int, excess: int)
    requires Usable(cfg)
    requires var entry := if s.lastwrite > s.penalty then s.lastwrite else s.penalty;
             && IsRounded(cfg.scale, entry - t, lead)
             && IsRounded(cfg.scale, Account(cfg, s, t, length).0.penalty - t - cfg.timeout, excess)
    ensures Account(cfg, s, t, length).1 ==
            if lead < cfg.timeout || excess < 0 then 0 else if excess > cfg.timeout then cfg.timeout else excess
  {
    var entry := if s.lastwrite > s.penalty then s.lastwrite else s.penalty;
    RoundExactly(cfg, entry - t, lead);
    RoundExactly(cfg, Account(cfg, s, t, length).0.penalty - t - cfg.timeout, excess);
    SleepBounded(cfg, entry, t, length);
  }

  /** What a call starts from. */
  function Ahead(s: State): int {
    if s.lastwrite > s.penalty then s.lastwrite else s.penalty
  }

  /** The message a step accounts for: one that comes while none waits, or the one just written while more
      wait. PONGs and pings are free. */
  function Billed(s: State, e: Event): Option<bytes> {
    match e
    case Message(m, _, _, _) => if m != [] && !IsPong(m) && s.sleeper == None then Some(m) else None
    case Wake(_, _, _, ok) => if ok && |s.queue| > 1 then Some(s.queue[0]) else None
    case _ => None
  }

  /** One more call: for this message, at this time, from the penalty or the last write, whichever is later. */
  ghost predicate CalledFor(cfg: Config, s: State, r: State, m: bytes, t: int)
    requires Usable(cfg)
  {
    |r.calls| == |s.calls| + 1 && r.calls[..|s.calls|] == s.calls &&
    var c := r.calls[|s.calls|];
    && c.t == t && r.penalty == c.entry + c.charge
    && IsLengthCharge(cfg, |m|, c.charge - cfg.basestep)
  }

  /** Every step makes a call exactly for the message it accounts for. A message that comes then goes out at
      once, or waits as long as the call says; after a write the timer is set for the next one as the call
      says. */
  lemma CallsExactly(cfg: Config, s: State, e: Event)
    requires Usable(cfg) && Enabled(s, e) && (s.sleeper.Some? <==> s.queue != [])
    ensures var r, m := Step(cfg, s, e), Billed(s, e);
            && (m == None ==> r.calls == s.calls && r.penalty == s.penalty)
            && (m.Some? && e.Message? ==>
                  && CalledFor(cfg, s, r, m.value, e.t)
                  && r.calls[|s.calls|].entry == Ahead(s)
                  && var sleep := r.calls[|s.calls|].sleep;
                     if sleep == 0 then r.sleeper == None && r.queue == [] && (e.ok ==> r.written == s.written + [m.value])
                     else r.sleeper == Some(e.w + sleep) && r.queue == [m.value] && r.written == s.written)
            && (m.Some? && e.Wake? ==>
                  && CalledFor(cfg, s, r, m.value, e.t)
                  && r.calls[|s.calls|].entry == (if e.w > s.penalty then e.w else s.penalty)
                  && r.sleeper == Some(e.a + r.calls[|s.calls|].sleep)
                  && r.queue == s.queue[1..] && r.written == s.written + [m.value])
  {
    if Billed(s, e).Some? {
      LengthCharged(cfg, |Billed(s, e).value|);
    }
  }

  /** The time of the last write is noted exactly when one reaches the connection, PONGs and pings included. */
  lemma WritesNoted(cfg: Config, s: State, e: Event)
    requires Usable(cfg) && Enabled(s, e)
    ensures var r := Step(cfg, s, e);
            if r.written == s.written then r.lastwrite == s.lastwrite
            else
              && r.lastwrite == (match e case Message(_, _, w, _) => w case Wake(w, _, _, _) => w case Beat(w, _) => w case Kill => 0)
              && |r.written| == |s.written| + 1 && r.written[..|s.written|] == s.written
    ensures e.Message? && IsPong(e.m) && e.ok ==> Step(cfg, s, e).written == s.written + [e.m]
  {
    if e.Message? && IsPong(e.m) {
      assert e.m != [];
    }
  }

  // ---- bursts ----------------------------------------------------------------------------

  /** Messages that come one after the other at one instant, each written at once if it may be. */
  ghost predicate IsBurst(events: seq<Event>, t: int) {
    forall e :: e in events ==> e.Message? && e.m != [] && !IsPong(e.m) && e.t == t && e.w == t && e.ok
  }

  /** With `n` base steps rounding to the timeout, and one more to a positive excess, no more than `n`
      messages of a burst go out: the next one waits. */
  predicate HoldsBack(cfg: Config, n: nat)
    requires Usable(cfg)
  {
    RoundToScale(cfg, n * cfg.basestep) >= cfg.timeout &&
    RoundToScale(cfg, (n + 1) * cfg.basestep - cfg.timeout) > 0
  }

  lemma LongLead(cfg: Config, n: nat, entry: int, t: int, length: nat)
    requires Usable(cfg) && HoldsBack(cfg, n) && cfg.timeout > 0 && entry - t >= n * cfg.basestep
    ensures SleepTime(cfg, entry, t, length) > 0
  {
    ChargeAtLeast(cfg, length);
    RoundKeepsOrder(cfg, n * cfg.basestep, entry - t);
    assert (n + 1) * cfg.basestep == n * cfg.basestep + cfg.basestep;
    RoundKeepsOrder(cfg, (n + 1) * cfg.basestep - cfg.timeout, entry + Charge(cfg, length) - t - cfg.timeout);
  }

  lemma ChargeAtLeast(cfg: Config, length: nat)
    requires Usable(cfg)
    ensures Charge(cfg, length) >= cfg.basestep
  {
    if cfg.lenPenaltyFactor > 0 {
      DivideBounds(cfg.scale * length, cfg.lenPenaltyFactor);
      RoundWithin(cfg, cfg.scale * length / cfg.lenPenaltyFactor);
    } else {
      RoundWithin(cfg, 0);
    }
  }

  lemma BurstStep(cfg: Config, s: State, e: Event, t: int, i: nat)
    requires Usable(cfg) && IsBurst([e], t) && !s.stopped && s.now <= t && s.sleeper == None
    requires Ahead(s) - t >= i * cfg.basestep
    ensures Enabled(s, e)
    ensures var r := Step(cfg, s, e);
            && !r.stopped && r.now == t
            && (r.sleeper == None ==> Ahead(r) - t >= (i + 1) * cfg.basestep)
            && (r.sleeper.Some? ==> r.queue != [])
            && (SleepTime(cfg, Ahead(s), t, |e.m|) > 0 ==> r.sleeper.Some?)
  {
    assert e in [e];
    ChargeAtLeast(cfg, |e.m|);
    assert (i + 1) * cfg.basestep == i * cfg.basestep + cfg.basestep;
    SleepBounded(cfg, Ahead(s), t, |e.m|);
  }

  /** Over every burst: once `n` messages are out, the next one waits in the queue. */
  lemma {:induction false} BurstHeld(cfg: Config, s: State, events: seq<Event>, t: int, n: nat)
    requires Usable(cfg) && HoldsBack(cfg, n) && cfg.timeout > 0
    requires !s.stopped && s.sleeper == None && s.now <= t <= Ahead(s) && IsBurst(events, t)
    ensures var r := Run(cfg, s, events);
            && !r.stopped && r.now <= t
            && (r.sleeper == None ==> Ahead(r) - t >= |events| * cfg.basestep && |events| <= n)
            && (r.sleeper.Some? ==> r.queue != [])
  {
    if events != [] {
      var init, e := events[..|events| - 1], events[|events| - 1];
      assert events == init + [e] && e in events;
      BurstHeld(cfg, s, init, t, n);
      var before := Run(cfg, s, init);
      if before.sleeper == None {
        BurstStep(cfg, before, e, t, |init|);
        if |init| == n {
          LongLead(cfg, n, Ahead(before), t, |e.m|);
        }
      }
    }
  }

  /** With a timeout of whole scales and steps of at least one, that many steps as fill the timeout will do. */
  lemma HoldsBackWhole(cfg: Config, n: nat)
    requires Usable(cfg) && cfg.timeout % cfg.scale == 0 && cfg.basestep >= cfg.scale
    requires n * cfg.basestep >= cfg.timeout
    ensures HoldsBack(cfg, n)
  {
    RoundExactly(cfg, cfg.timeout, cfg.timeout);
    RoundKeepsOrder(cfg, cfg.timeout, n * cfg.basestep);
    assert (n + 1) * cfg.basestep == n * cfg.basestep + cfg.basestep;
    MultipleOf(1, cfg.scale);
    RoundExactly(cfg, cfg.scale, cfg.scale);
    RoundKeepsOrder(cfg, cfg.scale, (n + 1) * cfg.basestep - cfg.timeout);
  }

  // ---- the keepalive ---------------------------------------------------------------------

  /** When the keepalive timer was last set: at the start, or at the last ping. */
  function LastSet(cfg: Config, s: State, events: seq<Event>): int
    requires Usable(cfg)
  {
    if events == [] then s.now
    else
      var init, e := events[..|events| - 1], events[|events| - 1];
      if Enabled(Run(cfg, s, init), e) && e.Beat? then e.w else LastSet(cfg, s, init)
  }

  lemma StepPinger(cfg: Config, s: State, e: Event)
    requires Usable(cfg)
    ensures var r := Step(cfg, s, e);
            !r.stopped ==> r.pinger == if e.Beat? then Some(e.w + cfg.keepalive) else s.pinger
    ensures s.stopped ==> Step(cfg, s, e).stopped
  {
  }

  /** Over every run, until it stops, the next ping is due one keepalive interval after the last one, or
      after the start; without an interval there is none. */
  lemma {:induction false} PingsGoOn(cfg: Config, zero: int, now: int, events: seq<Event>)
    requires Usable(cfg)
    ensures var s := Run(cfg, Start(cfg, zero, now), events);
            !s.stopped ==>
              s.pinger == if cfg.keepalive == 0 then None
                          else Some(LastSet(cfg, Start(cfg, zero, now), events) + cfg.keepalive)
  {
    if events != [] {
      var init, e := events[..|events| - 1], events[|events| - 1];
      PingsGoOn(cfg, zero, now, init);
      StepPinger(cfg, Run(cfg, Start(cfg, zero, now), init), e);
    }
  }
}
