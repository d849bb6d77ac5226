/**
 The feedback controller over the maximum allowed hash value. A larger value is an
 easier puzzle: the controller shrinks the value while puzzles are solved too often
 and lets it grow back, in equal steps, once they are not.
 */
module Difficulty {
  import opened Wrappers
  import opened BigInt

  const SCALE_FACTOR := 1_000_000
  const MINUTES_TO_INITIAL := 10

  /** `initial` is the easiest value; `evaluationsPerMinute` is 60 over the period in seconds. */
  datatype Config = Config(desired: real, initial: int, multiplier: real, evaluationsPerMinute: int) {
    predicate Valid() {
      desired > 0.0 && initial >= 0 && multiplier >= 1.0 && evaluationsPerMinute >= 1
    }
  }

  datatype Difficulty = Difficulty(current: int, increment: Option<int>)

  predicate OverRate(cfg: Config, count: nat) {
    count as real > cfg.desired
  }

  function ScaledRate(cfg: Config, count: nat): int
    requires cfg.Valid()
  {
    (count as real / cfg.desired * cfg.multiplier * (SCALE_FACTOR as real)).Floor
  }

  function WholeMultiplier(cfg: Config): int
    requires cfg.Valid()
  {
    Div((cfg.multiplier * (SCALE_FACTOR as real)).Floor, SCALE_FACTOR)
  }

  /** One hardening step, for a scaled rate `k`, a whole multiplier `m` and `e` evaluations per minute. */
  function HardenBy(e: int, m: int, k: int, current: int): int
    requires e > 0 && k > 0
  {
    current - Div((current - Div(current * SCALE_FACTOR, k)) * m, e)
  }

  lemma RealMulMonotone(a: real, b: real, c: real)
    requires a <= b && c >= 0.0
    ensures a * c <= b * c
  {
    assert (b - a) * c >= 0.0;
  }

  lemma RatioAtLeast(a: real, c: real, b: real)
    requires c > 0.0 && a * c >= b * c
    ensures a >= b
  {
    if a < b {
      RealMulMonotone(0.0, b - a, c);
    }
  }

  /** A rate of at least `r` times the desired one scales to at least `r` million. */
  lemma ScaledRateAtLeast(cfg: Config, count: nat, r: int)
    requires cfg.Valid() && r >= 0 && count as real >= r as real * cfg.desired
    ensures ScaledRate(cfg, count) >= r * SCALE_FACTOR
  {
    var rate := count as real / cfg.desired;
    assert rate * cfg.desired == count as real;
    RatioAtLeast(rate, cfg.desired, r as real);
    RealMulMonotone(1.0, cfg.multiplier, rate);
    assert rate * cfg.multiplier >= r as real;
  }

  lemma ScaledRateAtLeastOne(cfg: Config, count: nat)
    requires cfg.Valid() && OverRate(cfg, count)
    ensures ScaledRate(cfg, count) >= SCALE_FACTOR
  {
    ScaledRateAtLeast(cfg, count, 1);
  }

  function Harden(cfg: Config, current: int, count: nat): int
    requires cfg.Valid() && OverRate(cfg, count)
  {
    ScaledRateAtLeastOne(cfg, count);
    HardenBy(cfg.evaluationsPerMinute, WholeMultiplier(cfg), ScaledRate(cfg, count), current)
  }

  function IncrementFrom(cfg: Config, current: int): int
    requires cfg.Valid()
  {
    Div(cfg.initial - current, MINUTES_TO_INITIAL * cfg.evaluationsPerMinute)
  }

  function Ease(cfg: Config, d: Difficulty): Difficulty
    requires cfg.Valid()
  {
    if d.current == cfg.initial then d
    else
      var step := if d.increment.None? then IncrementFrom(cfg, d.current) else d.increment.value;
      Difficulty(if d.current + step >= cfg.initial then cfg.initial else d.current + step, Some(step))
  }

  /** One evaluation, given the number of puzzles solved in the last minute. */
  function Refresh(cfg: Config, d: Difficulty, count: nat): Difficulty
    requires cfg.Valid()
  {
    if OverRate(cfg, count) then Difficulty(Harden(cfg, d.current, count), None) else Ease(cfg, d)
  }

  function Start(cfg: Config): Difficulty {
    Difficulty(cfg.initial, Some(1))
  }

  function RunFrom(cfg: Config, d: Difficulty, counts: seq<nat>): Difficulty
    requires cfg.Valid()
  {
    if counts == [] then d
    else Refresh(cfg, RunFrom(cfg, d, counts[..|counts| - 1]), counts[|counts| - 1])
  }

  function Run(cfg: Config, counts: seq<nat>): Difficulty
    requires cfg.Valid()
  {
    RunFrom(cfg, Start(cfg), counts)
  }

  lemma RunSnoc(cfg: Config, d: Difficulty, counts: seq<nat>, count: nat)
    requires cfg.Valid()
    ensures RunFrom(cfg, d, counts + [count]) == Refresh(cfg, RunFrom(cfg, d, counts), count)
  {
    assert (counts + [count])[..|counts + [count]| - 1] == counts;
  }

  lemma {:induction false} RunFromConcat(cfg: Config, d: Difficulty, pre: seq<nat>, post: seq<nat>)
    requires cfg.Valid()
    ensures RunFrom(cfg, d, pre + post) == RunFrom(cfg, RunFrom(cfg, d, pre), post)
  {
    if post == [] {
      assert pre + post == pre;
    } else {
      RunFromConcat(cfg, d, pre, post[..|post| - 1]);
      assert (pre + post)[..|pre + post| - 1] == pre + post[..|post| - 1];
    }
  }

  // ---------------------------------------------------------------- scaled quantities

  lemma WholeMultiplierIsFloor(cfg: Config)
    requires cfg.Valid()
    ensures WholeMultiplier(cfg) == cfg.multiplier.Floor >= 1
  {
    var m := cfg.multiplier;
    var f := m.Floor;
    var scaled := (m * (SCALE_FACTOR as real)).Floor;
    assert f as real <= m < (f + 1) as real;
    assert f * SCALE_FACTOR <= scaled < (f + 1) * SCALE_FACTOR;
    QuotientIs(scaled, SCALE_FACTOR, f);
  }

  lemma ScaledRateMonotone(cfg: Config, a: nat, b: nat)
    requires cfg.Valid() && a <= b
    ensures ScaledRate(cfg, a) <= ScaledRate(cfg, b)
  {
    var ra, rb := a as real / cfg.desired, b as real / cfg.desired;
    assert ra * cfg.desired == a as real && rb * cfg.desired == b as real;
    RatioAtLeast(rb, cfg.desired, ra);
    RealMulMonotone(ra, rb, cfg.multiplier);
  }

  /** A count so large that every value up to `bound` in magnitude scales to nothing. */
  function Flood(cfg: Config, bound: nat): (count: nat)
    requires cfg.Valid()
    ensures OverRate(cfg, count) && ScaledRate(cfg, count) > bound * SCALE_FACTOR
  {
    var product := (bound + 1) as real * cfg.desired;
    RealMulMonotone(1.0, (bound + 1) as real, cfg.desired);
    var count := product.Floor + 1;
    ScaledRateAtLeast(cfg, count, bound + 1);
    count
  }

  // ---------------------------------------------------------------- one evaluation, exactly

  lemma RatioAtLeastIff(a: real, c: real, b: real)
    requires c > 0.0
    ensures b * c <= a * c <==> b <= a
  {
    if b <= a {
      RealMulMonotone(b, a, c);
    } else if b * c <= a * c {
      RatioAtLeast(a, c, b);
    }
  }

  /** The scaled rate is the one whole number that a million times rate and multiplier lie on or just above. */
  lemma ScaledRateExactly(cfg: Config, count: nat, k: int)
    requires cfg.Valid()
    ensures k as real * cfg.desired <= count as real * cfg.multiplier * 1_000_000.0 < (k + 1) as real * cfg.desired
       <==> k == ScaledRate(cfg, count)
  {
    var exact := count as real / cfg.desired * cfg.multiplier * (SCALE_FACTOR as real);
    assert exact * cfg.desired == count as real * cfg.multiplier * 1_000_000.0 by {
      assert count as real / cfg.desired * cfg.desired == count as real;
    }
    RatioAtLeastIff(exact, cfg.desired, k as real);
    RatioAtLeastIff(exact, cfg.desired, (k + 1) as real);
  }

  lemma DropIsNatural(current: int, k: int, m: int)
    requires current >= 0 && k >= 1_000_000 && m >= 0
    ensures Div(current * 1_000_000, k) == current * 1_000_000 / k <= current
    ensures (current - current * 1_000_000 / k) * m >= 0
  {
    var q := current * 1_000_000 / k;
    QuotientAtLeast(current * 1_000_000, k, current + 1);
    MulOrder(current + 1, 1_000_000, k);
    assert k * (current + 1) == (current + 1) * k;
    MulMonotone(0, current - q, m);
  }

  /** What hardening makes of a value, from the count and the settings alone. */
  lemma HardenExactly(cfg: Config, current: int, count: nat, k: int)
    requires cfg.Valid() && count as real > cfg.desired
    requires k as real * cfg.desired <= count as real * cfg.multiplier * 1_000_000.0 < (k + 1) as real * cfg.desired
    ensures OverRate(cfg, count) && k >= 1_000_000
    ensures Harden(cfg, current, count)
         == current - Div((current - Div(current * 1_000_000, k)) * cfg.multiplier.Floor, cfg.evaluationsPerMinute)
    ensures current >= 0 ==>
              Harden(cfg, current, count)
                == current - (current - current * 1_000_000 / k) * cfg.multiplier.Floor / cfg.evaluationsPerMinute
  {
    ScaledRateExactly(cfg, count, k);
    ScaledRateAtLeastOne(cfg, count);
    WholeMultiplierIsFloor(cfg);
    if current >= 0 {
      DropIsNatural(current, k, cfg.multiplier.Floor);
    }
  }

  /** What easing makes of a value: a step that is fixed when it is first needed, and never past the initial value. */
  lemma EaseExactly(cfg: Config, d: Difficulty)
    requires cfg.Valid()
    ensures d.current == cfg.initial ==> Ease(cfg, d) == d
    ensures d.current != cfg.initial ==>
              Ease(cfg, d).increment == Some(if d.increment.Some? then d.increment.value
                                             else Div(cfg.initial - d.current, 10 * cfg.evaluationsPerMinute))
    ensures d.current != cfg.initial ==>
              var next := d.current + Ease(cfg, d).increment.value;
              Ease(cfg, d).current == if next < cfg.initial then next else cfg.initial
  {
  }

  /** Which of the two an evaluation does. */
  lemma RefreshExactly(cfg: Config, d: Difficulty, count: nat)
    requires cfg.Valid()
    ensures count as real > cfg.desired ==>
              OverRate(cfg, count) && Refresh(cfg, d, count) == Difficulty(Harden(cfg, d.current, count), None)
    ensures count as real <= cfg.desired ==> Refresh(cfg, d, count) == Ease(cfg, d)
  {
  }
}
