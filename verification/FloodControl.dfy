/** Flood control: how long to wait before the next write. Times and durations are integers
    in nanoseconds. */
module FloodControl {

  /** Division of durations truncates toward zero. */
  function TruncDiv(a: int, b: int): int
    requires b > 0
  {
    if a >= 0 then a / b else -(-a / b)
  }

  /** The length penalty factor is kept as its inverse, 0 when there is none. */
  datatype Config = Config(timeout: nat, basestep: nat, scale: nat, lenPenaltyFactor: nat, keepalive: nat)

  ghost predicate Usable(cfg: Config) {
    cfg.scale > 0
  }

  function RoundToScale(cfg: Config, d: int): int
    requires Usable(cfg)
  {
    TruncDiv(d + cfg.scale / 2, cfg.scale) * cfg.scale
  }

  function Charge(cfg: Config, length: nat): int
    requires Usable(cfg)
  {
    cfg.basestep +
    RoundToScale(cfg, if cfg.lenPenaltyFactor > 0 then cfg.scale * length / cfg.lenPenaltyFactor else 0)
  }

  /** The penalty a call starts from: never before the last write. */
  function Entry(penalty: int, lastwrite: int): int {
    if lastwrite > penalty then lastwrite else penalty
  }

  /** What a call at `t` for a message of `length` bytes answers, when the penalty it starts from
      is `entry`. */
  function SleepTime(cfg: Config, entry: int, t: int, length: nat): int
    requires Usable(cfg)
  {
    if RoundToScale(cfg, entry - t) >= cfg.timeout then
      var sleep := RoundToScale(cfg, entry + Charge(cfg, length) - t - cfg.timeout);
      if sleep > cfg.timeout then cfg.timeout else sleep
    else 0
  }

  // ---- rounding ------------------------------------------------------------------------

  lemma DivideBounds(a: int, b: int)
    requires a >= 0 && b > 0
    ensures a / b * b <= a < a / b * b + b && a / b >= 0
  {
  }

  /** Rounding moves a duration by at most one scale; downward by at most half of one. */
  lemma RoundWithin(cfg: Config, d: int)
    requires Usable(cfg)
    ensures d - cfg.scale < RoundToScale(cfg, d) < d + 2 * cfg.scale
    ensures d + cfg.scale / 2 >= 0 ==>
              0 <= RoundToScale(cfg, d) <= d + cfg.scale / 2 && d <= RoundToScale(cfg, d) + cfg.scale
    ensures d + cfg.scale / 2 + cfg.scale > 0 ==> RoundToScale(cfg, d) >= 0
  {
    var y, s := d + cfg.scale / 2, cfg.scale;
    if y >= 0 {
      DivideBounds(y, s);
    } else {
      DivideBounds(-y, s);
      assert RoundToScale(cfg, d) == -(-y / s * s);
      if -y < s {
        assert -y / s == 0;
      }
    }
  }

  lemma RoundKeepsOrder(cfg: Config, d: int, e: int)
    requires Usable(cfg) && d <= e
    ensures RoundToScale(cfg, d) <= RoundToScale(cfg, e)
  {
    var y, z, s := d + cfg.scale / 2, e + cfg.scale / 2, cfg.scale;
    TruncKeepsOrder(y, z, s);
    MultiplyKeepsOrder(TruncDiv(y, s), TruncDiv(z, s), s);
  }

  lemma MultiplyKeepsOrder(a: int, b: int, s: nat)
    requires a <= b
    ensures a * s <= b * s
  {
  }

  lemma TruncKeepsOrder(y: int, z: int, s: int)
    requires s > 0 && y <= z
    ensures TruncDiv(y, s) <= TruncDiv(z, s)
  {
    if y >= 0 {
      DivideKeepsOrder(y, z, s);
    } else if z >= 0 {
      DivideBounds(-y, s);
      DivideBounds(z, s);
    } else {
      DivideKeepsOrder(-z, -y, s);
    }
  }

  lemma DivideKeepsOrder(a: int, b: int, s: int)
    requires s > 0 && 0 <= a <= b
    ensures a / s <= b / s
  {
    DivideBounds(a, s);
    DivideBounds(b, s);
    if a / s > b / s {
      MultiplyKeepsOrder(b / s + 1, a / s, s);
    }
  }

  lemma ChargeNonNegative(cfg: Config, length: nat)
    requires Usable(cfg)
    ensures Charge(cfg, length) >= 0
  {
    if cfg.lenPenaltyFactor > 0 {
      DivideBounds(cfg.scale * length, cfg.lenPenaltyFactor);
      RoundWithin(cfg, cfg.scale * length / cfg.lenPenaltyFactor);
    } else {
      RoundWithin(cfg, 0);
    }
  }

  // ---- one call --------------------------------------------------------------------------

  /** Every answer lies between no wait and the timeout. */
  lemma SleepBounded(cfg: Config, entry: int, t: int, length: nat)
    requires Usable(cfg)
    ensures 0 <= SleepTime(cfg, entry, t, length) <= cfg.timeout
  {
    ChargeNonNegative(cfg, length);
    if RoundToScale(cfg, entry - t) >= cfg.timeout {
      var d := entry - t;
      RoundWithin(cfg, d);
      RoundWithin(cfg, d - cfg.timeout);
      RoundKeepsOrder(cfg, d - cfg.timeout, d + Charge(cfg, length) - cfg.timeout);
      if cfg.timeout > 0 && d + cfg.scale / 2 < 0 {
        NegativeRounds(cfg, d);
      }
    }
  }

  lemma NegativeRounds(cfg: Config, d: int)
    requires Usable(cfg) && d + cfg.scale / 2 < 0
    ensures RoundToScale(cfg, d) <= 0
  {
    var y, s := d + cfg.scale / 2, cfg.scale;
    DivideBounds(-y, s);
    MultiplyKeepsOrder(0, -y / s, s);
  }

  /** The most a penalty may run ahead of the clock, when no charge exceeds `most`. */
  function Lead(cfg: Config, most: nat): int {
    cfg.timeout + most + cfg.scale
  }

  /** If the penalty was at most `Lead` ahead at a call, it is so again once the wait is over. */
  lemma LeadKept(cfg: Config, most: nat, entry: int, t: int, length: nat)
    requires Usable(cfg) && Charge(cfg, length) <= most <= cfg.timeout
    requires entry - t <= Lead(cfg, most)
    ensures entry + Charge(cfg, length) - (t + SleepTime(cfg, entry, t, length)) <= Lead(cfg, most)
  {
    var charge := Charge(cfg, length);
    ChargeNonNegative(cfg, length);
    SleepBounded(cfg, entry, t, length);
    if RoundToScale(cfg, entry - t) < cfg.timeout {
      RoundWithin(cfg, entry - t);
    } else {
      RoundWithin(cfg, entry + charge - t - cfg.timeout);
    }
  }
}
