/**
 What an ordinary overload does: puzzles solved at twice the desired rate are enough to take an
 oversized multiplier through zero and back above the initial value.
 */
module DifficultyBounce {
  import opened BigInt
  import opened Difficulty
  import opened DifficultyRange
  import opened DifficultyConvergence

  predicate Doubled(cfg: Config, count: nat) {
    count as real >= 2.0 * cfg.desired
  }

  /** At double rate the scaled rate is at least twice the multiplier, whose whole part counts again later. */
  lemma DoubledScaledRate(cfg: Config, count: nat)
    requires cfg.Valid() && Doubled(cfg, count)
    ensures OverRate(cfg, count) && ScaledRate(cfg, count) >= 2 * WholeMultiplier(cfg) * SCALE_FACTOR
  {
    var rate, m := count as real / cfg.desired, WholeMultiplier(cfg);
    WholeMultiplierIsFloor(cfg);
    assert rate * cfg.desired == count as real;
    RatioAtLeast(rate, cfg.desired, 2.0);
    RealMulMonotone(2.0, rate, cfg.multiplier);
    assert rate * cfg.multiplier >= 2.0 * (m as real);
  }

  lemma DivIsOdd(a: int, b: int)
    requires b > 0
    ensures Div(-a, b) == -Div(a, b)
  {
  }

  lemma HardenByIsOdd(e: int, m: int, k: int, current: int)
    requires e > 0 && k > 0
    ensures HardenBy(e, m, k, -current) == -HardenBy(e, m, k, current)
  {
    var drop := current - Div(current * SCALE_FACTOR, k);
    DivIsOdd(current * SCALE_FACTOR, k);
    assert (-current) * SCALE_FACTOR == -(current * SCALE_FACTOR);
    assert (-drop) * m == -(drop * m);
    DivIsOdd(drop * m, e);
  }

  /** Truncating division is odd, and so is the whole hardening step. */
  lemma HardenIsOdd(cfg: Config, current: int, count: nat)
    requires cfg.Valid() && OverRate(cfg, count)
    ensures Harden(cfg, -current, count) == -Harden(cfg, current, count)
  {
    ScaledRateAtLeastOne(cfg, count);
    HardenByIsOdd(cfg.evaluationsPerMinute, WholeMultiplier(cfg), ScaledRate(cfg, count), current);
  }

  /** The multiplied drop, doubled, is at least 2M - 1 times the value. */
  lemma DoubledDropIsLarge(current: int, m: int, k: int)
    requires current >= 0 && m >= 1 && k >= 2 * m * SCALE_FACTOR
    ensures 2 * ((current - current * SCALE_FACTOR / k) * m) >= (2 * m - 1) * current
  {
    var q := current * SCALE_FACTOR / k;
    QuotientBounds(current * SCALE_FACTOR, k);
    QuotientAtLeast(current * SCALE_FACTOR, k, 0);
    MulMonotone(2 * m * SCALE_FACTOR, k, q);
    assert 2 * m * SCALE_FACTOR * q == SCALE_FACTOR * (2 * m * q);
    assert 2 * m * q <= current;
    assert 2 * ((current - q) * m) == 2 * m * current - 2 * m * q;
    assert (2 * m - 1) * current == 2 * m * current - current;
  }

  /** How far one share of such a drop falls, for a multiplier of at least `r` times E and one. */
  lemma LargeShare(current: int, m: int, e: int, drop: int, r: int)
    requires current > 2 * (e - 1) && e >= 1 && m >= r * e + 1
    requires 2 * (drop * m) >= (2 * m - 1) * current
    ensures drop * m / e >= r * current + 1
  {
    var share := drop * m / e;
    QuotientBounds(drop * m, e);
    MulMonotone(2 * r * e + 1, 2 * m - 1, current);
    assert (2 * r * e + 1) * current == 2 * e * (r * current) + current;
    if share <= r * current {
      MulOrder(2 * e, share, r * current);
      assert false;
    }
  }

  /** One doubled evaluation: below zero when M > E, and further below than it was above when M > 2E. */
  lemma DoubledFlip(cfg: Config, current: int, count: nat)
    requires cfg.Valid() && Doubled(cfg, count) && current > LoadFloor(cfg)
    ensures OverRate(cfg, count)
    ensures WholeMultiplier(cfg) > cfg.evaluationsPerMinute ==> Harden(cfg, current, count) <= -1
    ensures WholeMultiplier(cfg) > 2 * cfg.evaluationsPerMinute ==> Harden(cfg, current, count) <= -(current + 1)
  {
    var e, m, k := cfg.evaluationsPerMinute, WholeMultiplier(cfg), ScaledRate(cfg, count);
    DoubledScaledRate(cfg, count);
    WholeMultiplierIsFloor(cfg);
    HardenFormula(cfg, current, count);
    DoubledDropIsLarge(current, m, k);
    if m > e {
      LargeShare(current, m, e, current - current * SCALE_FACTOR / k, 1);
    }
    if m > 2 * e {
      LargeShare(current, m, e, current - current * SCALE_FACTOR / k, 2);
    }
  }

  lemma DoubledOnce(cfg: Config, count: nat)
    requires cfg.Valid() && Doubled(cfg, count) && cfg.initial > LoadFloor(cfg)
    requires WholeMultiplier(cfg) > cfg.evaluationsPerMinute
    ensures Run(cfg, [count]).current < 0
  {
    RunSnoc(cfg, Start(cfg), [], count);
    assert [] + [count] == [count];
    DoubledFlip(cfg, cfg.initial, count);
  }

  lemma DoubledTwice(cfg: Config, count: nat)
    requires cfg.Valid() && Doubled(cfg, count) && cfg.initial > LoadFloor(cfg)
    requires WholeMultiplier(cfg) > 2 * cfg.evaluationsPerMinute
    ensures Run(cfg, [count] + [count]).current > cfg.initial
  {
    RunSnoc(cfg, Start(cfg), [], count);
    assert [] + [count] == [count];
    RunSnoc(cfg, Start(cfg), [count], count);
    DoubledFlip(cfg, cfg.initial, count);
    var low := Harden(cfg, cfg.initial, count);
    DoubledFlip(cfg, -low, count);
    HardenIsOdd(cfg, low, count);
  }

  /** A count at least twice the desired one. */
  function DoubledCount(cfg: Config): (count: nat)
    requires cfg.Valid()
    ensures Doubled(cfg, count)
  {
    (2.0 * cfg.desired).Floor + 1
  }

  /** Above the load floor the range conditions are conditions on the multiplier alone. */
  lemma ContainedIffModerate(cfg: Config)
    requires cfg.Valid() && cfg.initial > LoadFloor(cfg)
    ensures Contained(cfg) <==> WholeMultiplier(cfg) <= 2 * cfg.evaluationsPerMinute
  {
    NeverEasierIffContained(cfg);
    if WholeMultiplier(cfg) > 2 * cfg.evaluationsPerMinute {
      DoubledTwice(cfg, DoubledCount(cfg));
    } else {
      ModerateMultiplierIsContained(cfg);
    }
  }

  lemma DampedIffSmall(cfg: Config)
    requires cfg.Valid() && cfg.initial > LoadFloor(cfg)
    ensures Damped(cfg) <==> WholeMultiplier(cfg) <= cfg.evaluationsPerMinute
  {
    var e, m := cfg.evaluationsPerMinute, WholeMultiplier(cfg);
    if m > e {
      MulMonotone(1, m - e, cfg.initial);
    } else {
      MulMonotone(0, cfg.initial, e - m);
    }
  }

  /** Twice the desired rate at two evaluations, E = 2 and M = 6: from 1000 to -1751 to 3067. */
  lemma BounceExample()
    ensures var cfg := Config(10.0, 1000, 6.0, 2);
            Run(cfg, [20]).current == -1751 && Run(cfg, [20] + [20]).current == 3067
  {
    var cfg := Config(10.0, 1000, 6.0, 2);
    WholeMultiplierIsFloor(cfg);
    assert 6.0.Floor == 6 && ScaledRate(cfg, 20) == 12_000_000;
    RunSnoc(cfg, Start(cfg), [], 20);
    assert [] + [20] == [20];
    RunSnoc(cfg, Start(cfg), [20], 20);
  }
}
