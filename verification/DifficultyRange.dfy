/**
 How far the maximum allowed hash value can stray over whole runs of the controller,
 with the exact configurations for which it stays within bounds.
 */
module DifficultyRange {
  import opened Wrappers
  import opened BigInt
  import opened Difficulty

  ghost predicate NeverNegative(cfg: Config)
    requires cfg.Valid()
  {
    forall counts: seq<nat> :: Run(cfg, counts).current >= 0
  }

  ghost predicate NeverZero(cfg: Config)
    requires cfg.Valid()
  {
    forall counts: seq<nat> :: Run(cfg, counts).current >= 1
  }

  ghost predicate NeverEasierThanInitial(cfg: Config)
    requires cfg.Valid()
  {
    forall counts: seq<nat> :: Run(cfg, counts).current <= cfg.initial
  }

  /** How far below zero a step from `x >= 0` lands when the new value rounds to nothing. */
  function Overshoot(cfg: Config, x: int): int
    requires cfg.Valid()
  {
    x * WholeMultiplier(cfg) / cfg.evaluationsPerMinute - x
  }

  /** The excess of the multiplier over the evaluation frequency, weighed by the initial value, stays below one step. */
  predicate Damped(cfg: Config)
    requires cfg.Valid()
  {
    cfg.initial * (WholeMultiplier(cfg) - cfg.evaluationsPerMinute) < cfg.evaluationsPerMinute
  }

  // ---------------------------------------------------------------- one hardening step

  /** Where the unadjusted new value lies: between zero and the current one, whatever its sign. */
  lemma ScaledDown(current: int, k: int)
    requires k >= SCALE_FACTOR
    ensures current >= 0 ==> 0 <= Div(current * SCALE_FACTOR, k) <= current
    ensures current <= 0 ==> current <= Div(current * SCALE_FACTOR, k) <= 0
  {
    var x := if current >= 0 then current else -current;
    ScaledDistance(0, x, SCALE_FACTOR, k);
    assert 0 / k == 0;
    assert (-current) * SCALE_FACTOR == -(current * SCALE_FACTOR);
  }

  /** From a non-negative value a step goes down, by no more than the overshoot below zero. */
  lemma HardenFromAbove(cfg: Config, current: int, count: nat)
    requires cfg.Valid() && OverRate(cfg, count) && current >= 0
    ensures -Overshoot(cfg, current) <= Harden(cfg, current, count) <= current
  {
    var e, m, k := cfg.evaluationsPerMinute, WholeMultiplier(cfg), ScaledRate(cfg, count);
    ScaledRateAtLeastOne(cfg, count);
    WholeMultiplierIsFloor(cfg);
    ScaledDown(current, k);
    var drop := current - Div(current * SCALE_FACTOR, k);
    MulMonotone(0, drop, m);
    MulMonotone(drop, current, m);
    QuotientMonotone(0, drop * m, e);
    QuotientMonotone(drop * m, current * m, e);
  }

  /** From a negative value a step goes up, by no more than the overshoot of its magnitude. */
  lemma HardenFromBelow(cfg: Config, current: int, count: nat)
    requires cfg.Valid() && OverRate(cfg, count) && current < 0
    ensures current <= Harden(cfg, current, count) <= Overshoot(cfg, -current)
  {
    var e, m, k := cfg.evaluationsPerMinute, WholeMultiplier(cfg), ScaledRate(cfg, count);
    ScaledRateAtLeastOne(cfg, count);
    WholeMultiplierIsFloor(cfg);
    ScaledDown(current, k);
    var drop := Div(current * SCALE_FACTOR, k) - current;
    MulMonotone(0, drop, m);
    MulMonotone(drop, -current, m);
    QuotientMonotone(0, drop * m, e);
    QuotientMonotone(drop * m, (-current) * m, e);
    assert -drop * m == -(drop * m);
  }

  lemma HardenByFlood(e: int, m: int, k: int, current: int)
    requires e > 0 && m >= 0 && k > 0
    requires -k < current * SCALE_FACTOR < k
    ensures current >= 0 ==> HardenBy(e, m, k, current) == current - current * m / e
    ensures current < 0 ==> HardenBy(e, m, k, current) == current + (-current) * m / e
  {
    var x := if current >= 0 then current else -current;
    assert 0 <= x * SCALE_FACTOR < k;
    QuotientIs(x * SCALE_FACTOR, k, 0);
    MulMonotone(0, x, m);
    assert (-x) * m == -(x * m);
  }

  /** Under a flood of solutions the step overshoots by exactly the bound. */
  lemma HardenUnderFlood(cfg: Config, current: int, bound: int)
    requires cfg.Valid() && 0 <= bound && -bound <= current <= bound
    ensures current >= 0 ==> Harden(cfg, current, Flood(cfg, bound)) == -Overshoot(cfg, current)
    ensures current < 0 ==> Harden(cfg, current, Flood(cfg, bound)) == Overshoot(cfg, -current)
  {
    var m, k := WholeMultiplier(cfg), ScaledRate(cfg, Flood(cfg, bound));
    assert m >= 0 by { WholeMultiplierIsFloor(cfg); }
    HardenByFlood(cfg.evaluationsPerMinute, m, k, current);
  }

  lemma OvershootIs(cfg: Config, x: int)
    requires cfg.Valid()
    ensures Overshoot(cfg, x) == x * (WholeMultiplier(cfg) - cfg.evaluationsPerMinute) / cfg.evaluationsPerMinute
  {
    var e, m := cfg.evaluationsPerMinute, WholeMultiplier(cfg);
    QuotientBounds(x * (m - e), e);
    assert x * m == x * (m - e) + e * x;
    var q := x * (m - e) / e;
    assert e * (q + x) == e * q + e * x;
    QuotientIs(x * m, e, q + x);
  }

  lemma OvershootMonotone(cfg: Config, a: int, b: int)
    requires cfg.Valid() && 0 <= a <= b && WholeMultiplier(cfg) >= cfg.evaluationsPerMinute
    ensures 0 <= Overshoot(cfg, a) <= Overshoot(cfg, b)
  {
    var e, m := cfg.evaluationsPerMinute, WholeMultiplier(cfg);
    OvershootIs(cfg, a);
    OvershootIs(cfg, b);
    MulMonotone(0, a, m - e);
    MulMonotone(a, b, m - e);
    QuotientMonotone(0, a * (m - e), e);
    QuotientMonotone(a * (m - e), b * (m - e), e);
  }

  /** A damped configuration never overshoots zero from a value up to the initial one. */
  lemma DampedNeverOvershoots(cfg: Config, x: int)
    requires cfg.Valid() && Damped(cfg) && 0 <= x <= cfg.initial
    ensures Overshoot(cfg, x) <= 0
  {
    var e, m := cfg.evaluationsPerMinute, WholeMultiplier(cfg);
    OvershootIs(cfg, x);
    if m >= e {
      MulMonotone(x, cfg.initial, m - e);
    } else {
      MulMonotone(0, x, e - m);
      assert x * (e - m) == -(x * (m - e));
    }
    QuotientAtLeast(x * (m - e), e, 1);
  }

  // ---------------------------------------------------------------- easing

  /** Easing moves up, and not past the initial value. */
  lemma EaseWithin(cfg: Config, d: Difficulty)
    requires cfg.Valid() && d.current <= cfg.initial
    requires d.increment.Some? ==> d.increment.value >= 0
    ensures var n := Ease(cfg, d);
            d.current <= n.current <= cfg.initial && (n.increment.Some? ==> n.increment.value >= 0)
  {
    var span := MINUTES_TO_INITIAL * cfg.evaluationsPerMinute;
    QuotientMonotone(0, cfg.initial - d.current, span);
  }

  // ---------------------------------------------------------------- whole runs

  ghost predicate Within(cfg: Config, d: Difficulty, low: int) {
    low <= d.current <= cfg.initial && (d.increment.Some? ==> d.increment.value >= 0)
  }

  lemma {:induction false} DampedRunsStayInRange(cfg: Config, d: Difficulty, counts: seq<nat>)
    requires cfg.Valid() && Damped(cfg) && Within(cfg, d, 0)
    ensures Within(cfg, RunFrom(cfg, d, counts), 0)
  {
    if counts != [] {
      var n := |counts| - 1;
      DampedRunsStayInRange(cfg, d, counts[..n]);
      var before := RunFrom(cfg, d, counts[..n]);
      if OverRate(cfg, counts[n]) {
        HardenFromAbove(cfg, before.current, counts[n]);
        DampedNeverOvershoots(cfg, before.current);
      } else {
        EaseWithin(cfg, before);
      }
    }
  }

  lemma FloodRun(cfg: Config, bound: int)
    requires cfg.Valid() && cfg.initial <= bound
    ensures Run(cfg, [Flood(cfg, bound)]) == Difficulty(-Overshoot(cfg, cfg.initial), None)
  {
    RunSnoc(cfg, Start(cfg), [], Flood(cfg, bound));
    HardenUnderFlood(cfg, cfg.initial, bound);
  }

  lemma UndampedOvershoots(cfg: Config)
    requires cfg.Valid() && !Damped(cfg)
    ensures Overshoot(cfg, cfg.initial) >= 1
  {
    OvershootIs(cfg, cfg.initial);
    QuotientAtLeast(cfg.initial * (WholeMultiplier(cfg) - cfg.evaluationsPerMinute), cfg.evaluationsPerMinute, 1);
  }

  /** The difficulty value is never negative exactly in damped configurations. */
  lemma NeverNegativeIffDamped(cfg: Config)
    requires cfg.Valid()
    ensures NeverNegative(cfg) <==> Damped(cfg)
  {
    if Damped(cfg) {
      forall counts: seq<nat> ensures Run(cfg, counts).current >= 0 {
        DampedRunsStayInRange(cfg, Start(cfg), counts);
      }
    } else {
      FloodRun(cfg, cfg.initial);
      UndampedOvershoots(cfg);
      assert Run(cfg, [Flood(cfg, cfg.initial)]).current < 0;
    }
  }

  lemma SmallMultiplierUndershoots(x: int, m: int, e: int)
    requires x >= 1 && 0 <= m < e
    ensures x * m / e < x
  {
    MulMonotone(m + 1, e, x);
    assert (m + 1) * x == x * m + x && e * x == x * e;
    QuotientAtLeast(x * m, e, x);
  }

  lemma SmallMultiplierKeepsPositive(cfg: Config, current: int, count: nat)
    requires cfg.Valid() && OverRate(cfg, count) && current >= 1
    requires WholeMultiplier(cfg) < cfg.evaluationsPerMinute
    ensures Harden(cfg, current, count) >= 1
  {
    HardenFromAbove(cfg, current, count);
    WholeMultiplierIsFloor(cfg);
    SmallMultiplierUndershoots(current, WholeMultiplier(cfg), cfg.evaluationsPerMinute);
  }

  lemma {:induction false} SmallMultiplierRuns(cfg: Config, counts: seq<nat>)
    requires cfg.Valid() && cfg.initial >= 1 && WholeMultiplier(cfg) < cfg.evaluationsPerMinute
    ensures Within(cfg, Run(cfg, counts), 1)
  {
    if counts != [] {
      var n := |counts| - 1;
      SmallMultiplierRuns(cfg, counts[..n]);
      var before := Run(cfg, counts[..n]);
      if OverRate(cfg, counts[n]) {
        SmallMultiplierKeepsPositive(cfg, before.current, counts[n]);
        HardenFromAbove(cfg, before.current, counts[n]);
      } else {
        EaseWithin(cfg, before);
      }
    }
  }

  /**
   The hardest value is documented as 1. It is kept exactly when the whole multiplier is
   smaller than the number of evaluations per minute; at equality one flood reaches 0.
   */
  lemma NeverZeroIff(cfg: Config)
    requires cfg.Valid()
    ensures NeverZero(cfg) <==> cfg.initial >= 1 && WholeMultiplier(cfg) < cfg.evaluationsPerMinute
  {
    if cfg.initial >= 1 && WholeMultiplier(cfg) < cfg.evaluationsPerMinute {
      forall counts: seq<nat> ensures Run(cfg, counts).current >= 1 {
        SmallMultiplierRuns(cfg, counts);
      }
    } else if cfg.initial < 1 {
      assert Run(cfg, []).current < 1;
    } else {
      FloodRun(cfg, cfg.initial);
      OvershootMonotone(cfg, 0, cfg.initial);
      assert Run(cfg, [Flood(cfg, cfg.initial)]).current < 1;
    }
  }

  /** Neither overshoot nor the overshoot of an overshoot passes the initial value. */
  predicate Contained(cfg: Config)
    requires cfg.Valid()
  {
    WholeMultiplier(cfg) <= cfg.evaluationsPerMinute || Overshoot(cfg, Overshoot(cfg, cfg.initial)) <= cfg.initial
  }

  lemma UndampedMultiplier(cfg: Config)
    requires cfg.Valid() && !Damped(cfg)
    ensures WholeMultiplier(cfg) > cfg.evaluationsPerMinute
  {
    if WholeMultiplier(cfg) <= cfg.evaluationsPerMinute {
      MulMonotone(0, cfg.initial, cfg.evaluationsPerMinute - WholeMultiplier(cfg));
    }
  }

  lemma ContainedStep(cfg: Config, d: Difficulty, count: nat, low: int)
    requires cfg.Valid() && Contained(cfg) && Within(cfg, d, low)
    requires low == if Damped(cfg) then 0 else -Overshoot(cfg, cfg.initial)
    ensures Within(cfg, Refresh(cfg, d, count), low)
  {
    if !OverRate(cfg, count) {
      EaseWithin(cfg, d);
    } else if d.current >= 0 {
      HardenFromAbove(cfg, d.current, count);
      if Damped(cfg) {
        DampedNeverOvershoots(cfg, d.current);
      } else {
        UndampedMultiplier(cfg);
        OvershootMonotone(cfg, d.current, cfg.initial);
      }
    } else {
      UndampedMultiplier(cfg);
      HardenFromBelow(cfg, d.current, count);
      OvershootMonotone(cfg, -d.current, Overshoot(cfg, cfg.initial));
    }
  }

  lemma {:induction false} ContainedRuns(cfg: Config, counts: seq<nat>, low: int)
    requires cfg.Valid() && Contained(cfg)
    requires low == if Damped(cfg) then 0 else -Overshoot(cfg, cfg.initial)
    ensures Within(cfg, Run(cfg, counts), low)
  {
    if counts == [] {
      if !Damped(cfg) {
        UndampedMultiplier(cfg);
        OvershootMonotone(cfg, 0, cfg.initial);
      }
    } else {
      ContainedRuns(cfg, counts[..|counts| - 1], low);
      ContainedStep(cfg, Run(cfg, counts[..|counts| - 1]), counts[|counts| - 1], low);
    }
  }

  /** Two floods in a row: down by the overshoot, then back up by the overshoot of that. */
  function TwoFloodCounts(cfg: Config): seq<nat>
    requires cfg.Valid() && Overshoot(cfg, cfg.initial) >= 0
  {
    var flood := Flood(cfg, cfg.initial + Overshoot(cfg, cfg.initial));
    [flood] + [flood]
  }

  lemma TwoFloods(cfg: Config)
    requires cfg.Valid() && !Contained(cfg)
    ensures Overshoot(cfg, cfg.initial) > 0
    ensures Run(cfg, TwoFloodCounts(cfg)).current == Overshoot(cfg, Overshoot(cfg, cfg.initial)) > cfg.initial
  {
    var depth := Overshoot(cfg, cfg.initial);
    OvershootMonotone(cfg, 0, cfg.initial);
    if depth == 0 {
      OvershootIs(cfg, 0);
      assert false;
    }
    var flood := Flood(cfg, cfg.initial + depth);
    FloodRun(cfg, cfg.initial + depth);
    RunSnoc(cfg, Start(cfg), [flood], flood);
    HardenUnderFlood(cfg, -depth, cfg.initial + depth);
  }

  /**
   The documented promise that the difficulty is never lower than the initial one. It fails
   when two floods in a row bounce the value through zero and beyond its starting point.
   */
  lemma NeverEasierIffContained(cfg: Config)
    requires cfg.Valid()
    ensures NeverEasierThanInitial(cfg) <==> Contained(cfg)
  {
    if Contained(cfg) {
      forall counts: seq<nat> ensures Run(cfg, counts).current <= cfg.initial {
        ContainedRuns(cfg, counts, if Damped(cfg) then 0 else -Overshoot(cfg, cfg.initial));
      }
    } else {
      TwoFloods(cfg);
    }
  }

  lemma OvershootAtMost(cfg: Config, x: int)
    requires cfg.Valid() && x >= 0 && WholeMultiplier(cfg) <= 2 * cfg.evaluationsPerMinute
    ensures Overshoot(cfg, x) <= x
  {
    var e, m := cfg.evaluationsPerMinute, WholeMultiplier(cfg);
    OvershootIs(cfg, x);
    MulMonotone(m - e, e, x);
    QuotientMonotone(x * (m - e), e * x, e);
    QuotientIs(e * x, e, x);
  }

  /** A whole multiplier of at most twice the evaluation frequency is enough, whatever the initial value. */
  lemma ModerateMultiplierIsContained(cfg: Config)
    requires cfg.Valid() && WholeMultiplier(cfg) <= 2 * cfg.evaluationsPerMinute
    ensures NeverEasierThanInitial(cfg)
  {
    var e, m := cfg.evaluationsPerMinute, WholeMultiplier(cfg);
    if m > e {
      OvershootMonotone(cfg, 0, cfg.initial);
      OvershootAtMost(cfg, cfg.initial);
      OvershootAtMost(cfg, Overshoot(cfg, cfg.initial));
    }
    NeverEasierIffContained(cfg);
  }
}
