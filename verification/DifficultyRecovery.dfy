/**
 Behaviour once the load is gone: the value climbs back in equal steps fixed at the first
 evaluation after the last hardening. This module says exactly when it arrives, and when
 it never does.
 */
module DifficultyRecovery {
  import opened Wrappers
  import opened BigInt
  import opened Difficulty
  import opened DifficultyRange

  ghost predicate AllUnderRate(cfg: Config, counts: seq<nat>) {
    forall i :: 0 <= i < |counts| ==> !OverRate(cfg, counts[i])
  }

  function Min(a: int, b: int): int {
    if a <= b then a else b
  }

  /** The number of evaluations in the intended recovery time of ten minutes. */
  function RecoverySpan(cfg: Config): int {
    MINUTES_TO_INITIAL * cfg.evaluationsPerMinute
  }

  /** Closed form of any quiet stretch after a hardening. */
  lemma {:induction false} EasedValue(cfg: Config, base: int, counts: seq<nat>)
    requires cfg.Valid() && base <= cfg.initial && AllUnderRate(cfg, counts)
    ensures var d := RunFrom(cfg, Difficulty(base, None), counts);
            var step := (cfg.initial - base) / RecoverySpan(cfg);
            d.current == Min(cfg.initial, base + |counts| * step)
            && (d.current < cfg.initial && counts != [] ==> d.increment == Some(step))
  {
    var step := (cfg.initial - base) / RecoverySpan(cfg);
    QuotientMonotone(0, cfg.initial - base, RecoverySpan(cfg));
    if counts != [] {
      var n := |counts| - 1;
      EasedValue(cfg, base, counts[..n]);
      assert (n + 1) * step == n * step + step;
      MulMonotone(0, n, step);
    }
  }

  function CeilDiv(a: int, b: int): int
    requires b > 0
  {
    (a + b - 1) / b
  }

  lemma CeilDivAtMost(a: int, b: int, q: int)
    requires b > 0
    ensures CeilDiv(a, b) <= q <==> a <= b * q
  {
    QuotientAtLeast(a + b - 1, b, q + 1);
    assert b * (q + 1) == b * q + b;
  }

  /** The number of quiet evaluations needed from a value hardened to `base`. */
  function RecoveryTime(cfg: Config, base: int): int
    requires cfg.Valid() && cfg.initial - base >= RecoverySpan(cfg)
  {
    QuotientAtLeast(cfg.initial - base, RecoverySpan(cfg), 1);
    CeilDiv(cfg.initial - base, (cfg.initial - base) / RecoverySpan(cfg))
  }

  lemma BackIff(initial: int, base: int, step: int, n: nat)
    requires step >= 1
    ensures Min(initial, base + n * step) == initial <==> CeilDiv(initial - base, step) <= n
  {
    CeilDivAtMost(initial - base, step, n);
    assert step * n == n * step;
  }

  /** The initial value is back exactly from the recovery time on, and not one evaluation earlier. */
  lemma RecoversExactlyAt(cfg: Config, base: int, counts: seq<nat>)
    requires cfg.Valid() && AllUnderRate(cfg, counts) && cfg.initial - base >= RecoverySpan(cfg)
    ensures RunFrom(cfg, Difficulty(base, None), counts).current == cfg.initial
       <==> |counts| >= RecoveryTime(cfg, base)
  {
    EasedValue(cfg, base, counts);
    QuotientAtLeast(cfg.initial - base, RecoverySpan(cfg), 1);
    BackIff(cfg.initial, base, (cfg.initial - base) / RecoverySpan(cfg), |counts|);
  }

  /** Never faster than the intended ten minutes; at most one evaluation slower once the steps are large. */
  lemma RecoveryTimeBounds(cfg: Config, base: int)
    requires cfg.Valid() && cfg.initial - base >= RecoverySpan(cfg)
    ensures RecoveryTime(cfg, base) >= RecoverySpan(cfg)
    ensures (cfg.initial - base) / RecoverySpan(cfg) >= RecoverySpan(cfg) - 1
        ==> RecoveryTime(cfg, base) <= RecoverySpan(cfg) + 1
  {
    var gap, span := cfg.initial - base, RecoverySpan(cfg);
    QuotientAtLeast(gap, span, 1);
    var step := gap / span;
    QuotientBounds(gap, span);
    CeilDivAtMost(gap, step, span - 1);
    assert step * (span - 1) == span * step - step;
    CeilDivAtMost(gap, step, span + 1);
    assert step * (span + 1) == span * step + step;
  }

  ghost predicate EventuallyRecovers(cfg: Config, base: int)
    requires cfg.Valid()
  {
    exists counts: seq<nat> ::
      AllUnderRate(cfg, counts) && RunFrom(cfg, Difficulty(base, None), counts).current == cfg.initial
  }

  /**
   A gap too small to fill one unit per evaluation of the ten minutes rounds to a step of
   zero: the value then stays where it is for as long as the load stays away.
   */
  lemma RecoversIffGapFillsSpan(cfg: Config, base: int)
    requires cfg.Valid() && base <= cfg.initial
    ensures EventuallyRecovers(cfg, base) <==> base == cfg.initial || cfg.initial - base >= RecoverySpan(cfg)
  {
    if base == cfg.initial {
      assert AllUnderRate(cfg, []) && RunFrom(cfg, Difficulty(base, None), []).current == cfg.initial;
    } else if cfg.initial - base >= RecoverySpan(cfg) {
      RecoveryTimeBounds(cfg, base);
      var quiet := seq(RecoveryTime(cfg, base), _ => 0);
      RecoversExactlyAt(cfg, base, quiet);
    } else {
      QuotientIs(cfg.initial - base, RecoverySpan(cfg), 0);
      forall counts: seq<nat> | AllUnderRate(cfg, counts)
        ensures RunFrom(cfg, Difficulty(base, None), counts).current != cfg.initial
      {
        EasedValue(cfg, base, counts);
      }
    }
  }

  /**
   Closed form of every run: whatever came before, the value is the one left by the last
   hardening plus whole steps, cut off at the initial value.
   */
  lemma AfterLastHardening(cfg: Config, pre: seq<nat>, over: nat, quiet: seq<nat>)
    requires cfg.Valid() && Contained(cfg) && OverRate(cfg, over) && AllUnderRate(cfg, quiet)
    ensures var base := Run(cfg, pre + [over]).current;
            base <= cfg.initial &&
            Run(cfg, pre + [over] + quiet).current
              == Min(cfg.initial, base + |quiet| * ((cfg.initial - base) / RecoverySpan(cfg)))
  {
    var hardened := Run(cfg, pre + [over]);
    RunSnoc(cfg, Start(cfg), pre, over);
    ContainedRuns(cfg, pre + [over], if Damped(cfg) then 0 else -Overshoot(cfg, cfg.initial));
    RunFromConcat(cfg, Start(cfg), pre + [over], quiet);
    EasedValue(cfg, hardened.current, quiet);
  }

  /** Before any hardening the value never leaves the initial one. */
  lemma {:induction false} QuietFromStart(cfg: Config, counts: seq<nat>)
    requires cfg.Valid() && AllUnderRate(cfg, counts)
    ensures Run(cfg, counts) == Start(cfg)
  {
    if counts != [] {
      QuietFromStart(cfg, counts[..|counts| - 1]);
    }
  }

  /**
   Unlike hardening, easing can swap two controllers: with E = 1 and an initial value of 20,
   bases 0 and 1 give steps 2 and 1, so after two evaluations the harder one has overtaken.
   */
  lemma EasingSwapsOrder()
    ensures var cfg := Config(10.0, 20, 1.0, 1);
            RunFrom(cfg, Difficulty(0, None), [0, 0]).current == 4
            && RunFrom(cfg, Difficulty(1, None), [0, 0]).current == 3
  {
    var cfg := Config(10.0, 20, 1.0, 1);
    EasedValue(cfg, 0, [0, 0]);
    EasedValue(cfg, 1, [0, 0]);
  }
}
