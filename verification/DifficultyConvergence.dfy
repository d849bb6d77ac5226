/**
 Behaviour under sustained load: how fast the value hardens, where it stalls, and that
 hardening never swaps the order of two controllers.
 */
module DifficultyConvergence {
  import opened BigInt
  import opened Difficulty
  import opened DifficultyRange

  ghost predicate AllOverRate(cfg: Config, counts: seq<nat>) {
    forall i :: 0 <= i < |counts| ==> OverRate(cfg, counts[i])
  }

  /** Every evaluation sees at least twice the desired solve count. */
  ghost predicate AllDoubled(cfg: Config, counts: seq<nat>) {
    forall i :: 0 <= i < |counts| ==> counts[i] as real >= 2.0 * cfg.desired
  }

  /** The value that sustained double load certainly reaches. */
  function LoadFloor(cfg: Config): int {
    2 * (cfg.evaluationsPerMinute - 1)
  }

  // ---------------------------------------------------------------- one step

  lemma HardenFormula(cfg: Config, current: int, count: nat)
    requires cfg.Valid() && OverRate(cfg, count) && current >= 0
    ensures var k := ScaledRate(cfg, count);
            k >= SCALE_FACTOR && 0 <= current * SCALE_FACTOR / k <= current &&
            Harden(cfg, current, count)
              == current - (current - current * SCALE_FACTOR / k) * WholeMultiplier(cfg) / cfg.evaluationsPerMinute
  {
    ScaledRateAtLeastOne(cfg, count);
    WholeMultiplierIsFloor(cfg);
    ScaledDown(current, ScaledRate(cfg, count));
    MulMonotone(0, current - current * SCALE_FACTOR / ScaledRate(cfg, count), WholeMultiplier(cfg));
  }

  /** The value strictly falls exactly while the adjusted drop fills at least one evaluation's share. */
  lemma FallsExactlyWhen(cfg: Config, current: int, count: nat)
    requires cfg.Valid() && OverRate(cfg, count) && current >= 0
    ensures Harden(cfg, current, count) < current
       <==> (current - current * SCALE_FACTOR / ScaledRate(cfg, count)) * WholeMultiplier(cfg)
            >= cfg.evaluationsPerMinute
  {
    HardenFormula(cfg, current, count);
    var drop := current - current * SCALE_FACTOR / ScaledRate(cfg, count);
    QuotientAtLeast(drop * WholeMultiplier(cfg), cfg.evaluationsPerMinute, 1);
  }

  /** A doubled rate at least halves the unadjusted value. */
  lemma DoubledDrop(cfg: Config, current: int, count: nat)
    requires cfg.Valid() && count as real >= 2.0 * cfg.desired && current >= 0
    ensures OverRate(cfg, count)
    ensures ScaledRate(cfg, count) > 0 && 2 * (current * SCALE_FACTOR / ScaledRate(cfg, count)) <= current
  {
    var k := ScaledRate(cfg, count);
    ScaledRateAtLeast(cfg, count, 2);
    var q := current * SCALE_FACTOR / k;
    QuotientBounds(current * SCALE_FACTOR, k);
    if q >= 0 {
      MulMonotone(2 * SCALE_FACTOR, k, q);
      assert 2 * SCALE_FACTOR * q <= current * SCALE_FACTOR;
    }
  }

  /** The share of a multiplied drop that one evaluation takes, up to rounding. */
  lemma ShareOfDrop(drop: int, m: int, e: int)
    requires drop >= 0 && m >= 1 && e >= 1
    ensures e * (drop * m / e) >= drop - (e - 1)
    ensures drop >= e ==> drop * m / e >= 1
  {
    MulMonotone(1, m, drop);
    QuotientBounds(drop * m, e);
    QuotientAtLeast(drop * m, e, 1);
  }

  lemma DoubledPolynomial(e: int, current: int, drop: int, fall: int)
    requires e >= 1 && 2 * drop >= current && e * fall >= drop - (e - 1)
    ensures 2 * e * (current - fall - 2 * (e - 1)) <= (2 * e - 1) * (current - 2 * (e - 1))
  {
    var ec, ef, ee := e * current, e * fall, e * e;
    assert 2 * e * (current - fall - 2 * (e - 1)) == 2 * ec - 2 * ef - 4 * ee + 4 * e;
    assert (2 * e - 1) * (current - 2 * (e - 1)) == 2 * ec - current - 4 * ee + 6 * e - 2;
  }

  lemma DoubledStep(cfg: Config, current: int, count: nat)
    requires cfg.Valid() && count as real >= 2.0 * cfg.desired && current >= 0
    ensures OverRate(cfg, count)
    ensures var e, f := cfg.evaluationsPerMinute, LoadFloor(cfg);
            2 * e * (Harden(cfg, current, count) - f) <= (2 * e - 1) * (current - f)
    ensures current > LoadFloor(cfg) ==> Harden(cfg, current, count) < current
  {
    DoubledDrop(cfg, current, count);
    HardenFormula(cfg, current, count);
    WholeMultiplierIsFloor(cfg);
    var e, m := cfg.evaluationsPerMinute, WholeMultiplier(cfg);
    var drop := current - current * SCALE_FACTOR / ScaledRate(cfg, count);
    ShareOfDrop(drop, m, e);
    DoubledPolynomial(e, current, drop, drop * m / e);
  }

  // ---------------------------------------------------------------- sustained load

  lemma GeometricStep(a: int, b: int, pa: int, pb: int, next: int, gap: int, start: int)
    requires pa >= 0 && b >= 0
    requires a * next <= b * gap && pa * gap <= pb * start
    ensures (a * pa) * next <= (b * pb) * start
  {
    MulMonotone(a * next, b * gap, pa);
    MulMonotone(pa * gap, pb * start, b);
    assert (a * pa) * next == a * next * pa;
    assert (b * pb) * start == pb * start * b;
    assert b * gap * pa == pa * gap * b;
  }

  /** Geometric hardening: each evaluation keeps at most (2E-1)/2E of the distance to the floor. */
  lemma {:induction false} HardensGeometrically(cfg: Config, d: Difficulty, counts: seq<nat>)
    requires cfg.Valid() && Damped(cfg) && Within(cfg, d, 0) && AllDoubled(cfg, counts)
    ensures var e, f, t := cfg.evaluationsPerMinute, LoadFloor(cfg), |counts|;
            Pow(2 * e, t) * (RunFrom(cfg, d, counts).current - f) <= Pow(2 * e - 1, t) * (d.current - f)
  {
    if counts != [] {
      var n := |counts| - 1;
      HardensGeometrically(cfg, d, counts[..n]);
      DampedRunsStayInRange(cfg, d, counts[..n]);
      var before := RunFrom(cfg, d, counts[..n]).current;
      DoubledStep(cfg, before, counts[n]);
      var e, f := cfg.evaluationsPerMinute, LoadFloor(cfg);
      var after := Harden(cfg, before, counts[n]);
      PowPositive(2 * e, n);
      GeometricStep(2 * e, 2 * e - 1, Pow(2 * e, n), Pow(2 * e - 1, n), after - f, before - f, d.current - f);
    }
  }

  lemma LessThanOneUnit(p: int, gap: int)
    requires p >= 1 && p * gap < p
    ensures gap <= 0
  {
    if gap >= 1 {
      MulMonotone(1, gap, p);
    }
  }

  /** Once the geometric bound drops below one, the floor is reached. */
  lemma ReachesFloorGeometrically(cfg: Config, d: Difficulty, counts: seq<nat>)
    requires cfg.Valid() && Damped(cfg) && Within(cfg, d, 0) && AllDoubled(cfg, counts)
    requires Pow(2 * cfg.evaluationsPerMinute - 1, |counts|) * (d.current - LoadFloor(cfg))
             < Pow(2 * cfg.evaluationsPerMinute, |counts|)
    ensures RunFrom(cfg, d, counts).current <= LoadFloor(cfg)
  {
    HardensGeometrically(cfg, d, counts);
    PowPositive(2 * cfg.evaluationsPerMinute, |counts|);
    LessThanOneUnit(Pow(2 * cfg.evaluationsPerMinute, |counts|), RunFrom(cfg, d, counts).current - LoadFloor(cfg));
  }

  /** The value falls with every evaluation until it is at the floor, and then never rises above it. */
  lemma {:induction false} FallsToFloor(cfg: Config, d: Difficulty, counts: seq<nat>)
    requires cfg.Valid() && Damped(cfg) && Within(cfg, d, 0) && AllDoubled(cfg, counts)
    ensures var c := RunFrom(cfg, d, counts).current;
            c <= LoadFloor(cfg) || c + |counts| <= d.current
  {
    if counts != [] {
      var n := |counts| - 1;
      FallsToFloor(cfg, d, counts[..n]);
      DampedRunsStayInRange(cfg, d, counts[..n]);
      DoubledStep(cfg, RunFrom(cfg, d, counts[..n]).current, counts[n]);
      HardenFromAbove(cfg, RunFrom(cfg, d, counts[..n]).current, counts[n]);
    }
  }

  // ---------------------------------------------------------------- order

  /** With the multiplier within the evaluation frequency, an easier controller stays at least as easy. */
  lemma SmallMultiplierKeepsOrder(cfg: Config, a: int, b: int, count: nat)
    requires cfg.Valid() && OverRate(cfg, count) && 0 <= a <= b
    requires WholeMultiplier(cfg) <= cfg.evaluationsPerMinute
    ensures Harden(cfg, a, count) <= Harden(cfg, b, count)
  {
    var e, m, k := cfg.evaluationsPerMinute, WholeMultiplier(cfg), ScaledRate(cfg, count);
    HardenFormula(cfg, a, count);
    HardenFormula(cfg, b, count);
    WholeMultiplierIsFloor(cfg);
    ScaledDistance(a, b, SCALE_FACTOR, k);
    ScaledDistance(a - a * SCALE_FACTOR / k, b - b * SCALE_FACTOR / k, m, e);
  }

  /** Damped all the same, a larger multiplier makes no difference: the adjusted drop is the plain one. */
  lemma DampedHarden(cfg: Config, current: int, count: nat)
    requires cfg.Valid() && OverRate(cfg, count) && Damped(cfg) && 0 <= current <= cfg.initial
    requires WholeMultiplier(cfg) >= cfg.evaluationsPerMinute
    ensures ScaledRate(cfg, count) > 0 && Harden(cfg, current, count) == current * SCALE_FACTOR / ScaledRate(cfg, count)
  {
    HardenFormula(cfg, current, count);
    var drop := current - current * SCALE_FACTOR / ScaledRate(cfg, count);
    DampedNeverOvershoots(cfg, drop);
    OvershootMonotone(cfg, 0, drop);
  }

  lemma HardenKeepsOrder(cfg: Config, a: int, b: int, count: nat)
    requires cfg.Valid() && OverRate(cfg, count) && Damped(cfg) && 0 <= a <= b <= cfg.initial
    ensures Harden(cfg, a, count) <= Harden(cfg, b, count)
  {
    if WholeMultiplier(cfg) <= cfg.evaluationsPerMinute {
      SmallMultiplierKeepsOrder(cfg, a, b, count);
    } else {
      DampedHarden(cfg, a, count);
      DampedHarden(cfg, b, count);
      MulMonotone(a, b, SCALE_FACTOR);
      QuotientMonotone(a * SCALE_FACTOR, b * SCALE_FACTOR, ScaledRate(cfg, count));
    }
  }

  ghost predicate KeepsOrder(cfg: Config)
    requires cfg.Valid()
  {
    forall a: int, b: int, count: nat :: 0 <= a <= b <= cfg.initial && OverRate(cfg, count)
      ==> Harden(cfg, a, count) <= Harden(cfg, b, count)
  }

  /**
   Hardening keeps the order of any two values in range exactly in damped configurations; in
   all others a flood takes the initial value below zero and so below the value 0, which stays.
   */
  lemma HardenKeepsOrderIffDamped(cfg: Config)
    requires cfg.Valid()
    ensures KeepsOrder(cfg) <==> Damped(cfg)
  {
    if Damped(cfg) {
      forall a: int, b: int, count: nat | 0 <= a <= b <= cfg.initial && OverRate(cfg, count)
        ensures Harden(cfg, a, count) <= Harden(cfg, b, count)
      {
        HardenKeepsOrder(cfg, a, b, count);
      }
    } else {
      var flood := Flood(cfg, cfg.initial);
      HardenUnderFlood(cfg, 0, cfg.initial);
      HardenUnderFlood(cfg, cfg.initial, cfg.initial);
      OvershootIs(cfg, 0);
      UndampedOvershoots(cfg);
      assert Harden(cfg, 0, flood) > Harden(cfg, cfg.initial, flood);
    }
  }

  /** More solutions never make the puzzle easier. */
  lemma HardenAntitoneInCount(cfg: Config, current: int, fewer: nat, more: nat)
    requires cfg.Valid() && OverRate(cfg, fewer) && fewer <= more && current >= 0
    ensures Harden(cfg, current, more) <= Harden(cfg, current, fewer)
  {
    var e, m := cfg.evaluationsPerMinute, WholeMultiplier(cfg);
    var k, l := ScaledRate(cfg, fewer), ScaledRate(cfg, more);
    HardenFormula(cfg, current, fewer);
    HardenFormula(cfg, current, more);
    WholeMultiplierIsFloor(cfg);
    ScaledRateMonotone(cfg, fewer, more);
    var q := current * SCALE_FACTOR / l;
    QuotientBounds(current * SCALE_FACTOR, l);
    MulMonotone(k, l, q);
    QuotientAtLeast(current * SCALE_FACTOR, k, q);
    MulMonotone(current - current * SCALE_FACTOR / k, current - q, m);
    QuotientMonotone((current - current * SCALE_FACTOR / k) * m, (current - q) * m, e);
  }

  /**
   Two controllers under load: the one that starts no easier and sees no fewer solutions at
   each evaluation ends no easier, and neither value ever rises.
   */
  lemma {:induction false} LoadKeepsOrder(cfg: Config, hard: Difficulty, easy: Difficulty,
                                          many: seq<nat>, few: seq<nat>)
    requires cfg.Valid() && Damped(cfg)
    requires Within(cfg, hard, 0) && Within(cfg, easy, 0) && hard.current <= easy.current
    requires |many| == |few| && AllOverRate(cfg, few) && forall i :: 0 <= i < |few| ==> few[i] <= many[i]
    ensures 0 <= RunFrom(cfg, hard, many).current <= RunFrom(cfg, easy, few).current <= easy.current
    ensures RunFrom(cfg, hard, many).current <= hard.current
  {
    if few != [] {
      var n := |few| - 1;
      LoadKeepsOrder(cfg, hard, easy, many[..n], few[..n]);
      var h, s := RunFrom(cfg, hard, many[..n]).current, RunFrom(cfg, easy, few[..n]).current;
      HardenAntitoneInCount(cfg, h, few[n], many[n]);
      HardenKeepsOrder(cfg, h, s, few[n]);
      HardenFromAbove(cfg, h, many[n]);
      HardenFromAbove(cfg, s, few[n]);
      DampedNeverOvershoots(cfg, h);
    }
  }
}
