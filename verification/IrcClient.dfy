/** The write side of the client as an object: it refines the pump of `Pumps`. */
module IrcClients {
  import opened Bytes
  import opened Seqs
  import opened FloodControl
  import opened Queues
  import opened Pumps

  /** The locals of the pump loop (`sleeper`, `pinger`, the error) are fields here, `now` is the last
      clock reading, `written` is what reached the connection. */
  class IrcClient {
    const cfg: Config
    const queue: Queue
    var penalty: int
    var lastwrite: int
    var sleeper: Option<int>
    var pinger: Option<int>
    var now: int
    var stopped: bool
    var written: seq<bytes>
    ghost var lost: seq<bytes>
    ghost var calls: seq<Call>

    ghost predicate Ok()
      reads this, queue, queue.Repr
    {
      Usable(cfg) && queue.Valid()
    }

    ghost function View(): State
      reads this, queue
    {
      State(queue.Contents(), sleeper, pinger, penalty, lastwrite, now, written, lost, stopped, calls)
    }

    constructor (cfg: Config, zero: int, now: int)
      requires Usable(cfg)
      ensures Ok() && View() == Start(cfg, zero, now) && this.cfg == cfg && fresh(queue) && queue.Repr == {}
    {
      this.cfg := cfg;
      queue := new Queue();
      penalty, lastwrite, this.now, stopped := zero, zero, now, false;
      sleeper := None;
      pinger := if cfg.keepalive != 0 then Some(now + cfg.keepalive) else None;
      written, lost, calls := [], [], [];
    }

    method CalcSleepTime(t: int, length: nat) returns (sleep: int)
      requires Ok()
      modifies this
      ensures Ok() && (View(), sleep) == Account(cfg, old(View()), t, length)
    {
      if lastwrite > penalty {
        penalty := lastwrite;
      }
      ghost var entry := penalty;
      var applyPenalty := RoundToScale(cfg, penalty - t) >= cfg.timeout;
      penalty := penalty + Charge(cfg, length);
      sleep := 0;
      if applyPenalty {
        sleep := RoundToScale(cfg, penalty - t - cfg.timeout);
        if sleep > cfg.timeout {
          sleep := cfg.timeout;
        }
      }
      now := t;
      calls := calls + [Call(t, Charge(cfg, length), entry, sleep)];
    }

    method WriteMessage(m: bytes, w: int, ok: bool)
      requires Ok()
      modifies this
      ensures Ok() && View() == Write(old(View()), m, w, ok)
    {
      now := w;
      if ok {
        written := written + [m];
        lastwrite := w;
      } else {
        lost := lost + [m];
        stopped := true;
      }
    }

    method OnMessage(m: bytes, t: int, w: int, ok: bool)
      requires Ok()
      modifies this, queue, queue.Repr
      ensures Ok() && View() == Step(cfg, old(View()), Message(m, t, w, ok))
      ensures fresh(queue.Repr - old(queue.Repr))
    {
      if |m| == 0 {
        now := w;
      } else if PONG <= m {
        WriteMessage(m, w, ok);
      } else if sleeper == None {
        var sleepTime := CalcSleepTime(t, |m|);
        if sleepTime == 0 {
          WriteMessage(m, w, ok);
        } else {
          queue.Enqueue(m);
          sleeper, now := Some(w + sleepTime), w;
        }
      } else {
        queue.Enqueue(m);
        now := w;
      }
    }

    method OnWake(w: int, t: int, a: int, ok: bool)
      requires Ok() && queue.Contents() != [] && !stopped
      modifies this, queue
      ensures Ok() && View() == Step(cfg, old(View()), Wake(w, t, a, ok))
      ensures queue.Repr == old(queue.Repr)
    {
      ghost var start := View();
      var m := queue.Dequeue();
      WriteMessage(m, w, ok);
      assert View() == Write(start.(queue := start.queue[1..]), start.queue[0], w, ok);
      if ok {
        Rearm(t, a, |m|);
      }
    }

    /** After a timed write: the timer is set again while messages wait. */
    method Rearm(t: int, a: int, length: nat)
      requires Ok()
      modifies this
      ensures Ok()
      ensures View() == Rearmed(cfg, old(View()), t, a, length)
    {
      assert queue.length > 0 <==> queue.Contents() != [];
      if queue.length > 0 {
        var sleepTime := CalcSleepTime(t, length);
        sleeper, now := Some(a + sleepTime), a;
      } else {
        sleeper := None;
      }
    }

    method OnBeat(w: int, ok: bool)
      requires Ok() && !stopped
      modifies this, queue, queue.Repr
      ensures Ok() && View() == Step(cfg, old(View()), Beat(w, ok))
      ensures fresh(queue.Repr - old(queue.Repr))
    {
      if sleeper != None {
        queue.Enqueue(PING);
        now := w;
      } else {
        WriteMessage(PING, w, ok);
        if !ok {
          return;
        }
      }
      pinger := Some(w + cfg.keepalive);
    }

    /** The pump loop over the cases that the `select` comes upon, until a write fails or the client
        is closed. */
    method Pump(events: seq<Event>)
      requires Ok() && View() == Start(cfg, lastwrite, now)
      modifies this, queue, queue.Repr
      ensures Ok() && View() == Run(cfg, old(View()), events)
      ensures Conserved(View(), Accepted(cfg, old(View()), events))
    {
      ghost var start := View();
      for i := 0 to |events|
        invariant Ok() && View() == Run(cfg, start, events[..i])
        invariant fresh(queue.Repr - old(queue.Repr))
      {
        assert events[..i + 1][..i] == events[..i];
        RunConserves(cfg, start.lastwrite, start.now, events[..i]);
        Select(events[i]);
      }
      assert events[..|events|] == events;
      RunConserves(cfg, start.lastwrite, start.now, events);
    }

    /** One turn of the `select`, if the case is ready. */
    method Select(e: Event)
      requires Ok() && (!stopped ==> (sleeper.Some? <==> queue.Contents() != []))
      modifies this, queue, queue.Repr
      ensures Ok() && View() == if Enabled(old(View()), e) then Step(cfg, old(View()), e) else old(View())
      ensures fresh(queue.Repr - old(queue.Repr))
    {
      if stopped {
        return;
      }
      match e {
        case Message(m, t, w, ok) =>
          if now <= t <= w {
            OnMessage(m, t, w, ok);
          }
        case Wake(w, t, a, ok) =>
          if sleeper.Some? && sleeper.value <= w && now <= w <= t <= a {
            OnWake(w, t, a, ok);
          }
        case Beat(w, ok) =>
          if pinger.Some? && pinger.value <= w && now <= w {
            OnBeat(w, ok);
          }
        case Kill =>
          stopped := true;
      }
    }
  }
}
