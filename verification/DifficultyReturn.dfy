/**
 Which configurations always come back: from whatever value a run of evaluations has left, does
 the difficulty return to its initial value once the load stays away?
 */
module DifficultyReturn {
  import opened Wrappers
  import opened BigInt
  import opened Difficulty
  import opened DifficultyRange
  import opened DifficultyConvergence
  import opened DifficultyRecovery

  ghost predicate ComesBack(cfg: Config, d: Difficulty)
    requires cfg.Valid()
  {
    exists quiet: seq<nat> :: AllUnderRate(cfg, quiet) && RunFrom(cfg, d, quiet).current == cfg.initial
  }

  ghost predicate AlwaysComesBack(cfg: Config)
    requires cfg.Valid()
  {
    forall counts: seq<nat> :: ComesBack(cfg, Run(cfg, counts))
  }

  /** Evaluations that see no solutions at all. */
  function Silence(n: nat): seq<nat> {
    seq(n, _ => 0)
  }

  /** The smallest number of solutions that hardens. */
  function LeastOverRate(cfg: Config): (count: nat)
    requires cfg.Valid()
    ensures forall n: nat :: OverRate(cfg, n) <==> n >= count
  {
    cfg.desired.Floor + 1
  }

  /** How far that number takes the initial value down. */
  function LeastGap(cfg: Config): int
    requires cfg.Valid()
  {
    cfg.initial - Harden(cfg, cfg.initial, LeastOverRate(cfg))
  }

  // ---------------------------------------------------------------- coming back

  /** Every hardening leaves at least the least gap. */
  lemma GapAtLeast(cfg: Config, current: int, count: nat)
    requires cfg.Valid() && Damped(cfg) && OverRate(cfg, count) && 0 <= current <= cfg.initial
    ensures cfg.initial - Harden(cfg, current, count) >= LeastGap(cfg)
  {
    HardenKeepsOrder(cfg, current, cfg.initial, count);
    HardenAntitoneInCount(cfg, cfg.initial, LeastOverRate(cfg), count);
  }

  /** A quiet stretch after a hardening has led here. */
  ghost predicate OnTheWay(cfg: Config, d: Difficulty)
    requires cfg.Valid()
  {
    exists base: int, quiet: seq<nat> ::
      cfg.initial - base >= LeastGap(cfg) && AllUnderRate(cfg, quiet)
          && d == RunFrom(cfg, Difficulty(base, None), quiet)
  }

  lemma OnTheWayBy(cfg: Config, d: Difficulty, base: int, quiet: seq<nat>)
    requires cfg.Valid() && cfg.initial - base >= LeastGap(cfg) && AllUnderRate(cfg, quiet)
    requires d == RunFrom(cfg, Difficulty(base, None), quiet)
    ensures OnTheWay(cfg, d)
  {
  }

  lemma {:induction false} BackOrOnTheWay(cfg: Config, counts: seq<nat>)
    requires cfg.Valid() && Damped(cfg)
    ensures Run(cfg, counts).current == cfg.initial || OnTheWay(cfg, Run(cfg, counts))
  {
    if counts != [] {
      var n := |counts| - 1;
      var before := Run(cfg, counts[..n]);
      BackOrOnTheWay(cfg, counts[..n]);
      if OverRate(cfg, counts[n]) {
        DampedRunsStayInRange(cfg, Start(cfg), counts[..n]);
        GapAtLeast(cfg, before.current, counts[n]);
        OnTheWayBy(cfg, Run(cfg, counts), Harden(cfg, before.current, counts[n]), []);
      } else if before.current != cfg.initial {
        var base: int, quiet: seq<nat> :|
          cfg.initial - base >= LeastGap(cfg) && AllUnderRate(cfg, quiet)
              && before == RunFrom(cfg, Difficulty(base, None), quiet);
        RunSnoc(cfg, Difficulty(base, None), quiet, counts[n]);
        OnTheWayBy(cfg, Run(cfg, counts), base, quiet + [counts[n]]);
      }
    }
  }

  /** On the way, silence brings the value back from some number of evaluations on. */
  lemma OnTheWayComesBack(cfg: Config, d: Difficulty) returns (n: nat)
    requires cfg.Valid() && LeastGap(cfg) >= RecoverySpan(cfg) && OnTheWay(cfg, d)
    ensures forall m: nat :: m >= n ==> RunFrom(cfg, d, Silence(m)).current == cfg.initial
  {
    var base: int, quiet: seq<nat> :|
      cfg.initial - base >= LeastGap(cfg) && AllUnderRate(cfg, quiet)
          && d == RunFrom(cfg, Difficulty(base, None), quiet);
    RecoveryTimeBounds(cfg, base);
    n := RecoveryTime(cfg, base);
    forall m: nat | m >= n ensures RunFrom(cfg, d, Silence(m)).current == cfg.initial {
      RunFromConcat(cfg, Difficulty(base, None), quiet, Silence(m));
      RecoversExactlyAt(cfg, base, quiet + Silence(m));
    }
  }

  /** Back at the initial value, silence leaves it there. */
  lemma {:induction false} StaysBack(cfg: Config, d: Difficulty, m: nat)
    requires cfg.Valid() && d.current == cfg.initial
    ensures RunFrom(cfg, d, Silence(m)).current == cfg.initial
  {
    if m > 0 {
      StaysBack(cfg, d, m - 1);
      assert Silence(m) == Silence(m - 1) + [0];
      RunSnoc(cfg, d, Silence(m - 1), 0);
    }
  }

  lemma BackWithin(cfg: Config, counts: seq<nat>) returns (n: nat)
    requires cfg.Valid() && Damped(cfg)
    requires LeastGap(cfg) >= RecoverySpan(cfg) || Run(cfg, counts).current == cfg.initial
    ensures forall m: nat :: m >= n ==> RunFrom(cfg, Run(cfg, counts), Silence(m)).current == cfg.initial
  {
    BackOrOnTheWay(cfg, counts);
    if Run(cfg, counts).current == cfg.initial {
      n := 0;
      forall m: nat ensures RunFrom(cfg, Run(cfg, counts), Silence(m)).current == cfg.initial {
        StaysBack(cfg, Run(cfg, counts), m);
      }
    } else {
      n := OnTheWayComesBack(cfg, Run(cfg, counts));
    }
  }

  lemma ComesBackWithin(cfg: Config, counts: seq<nat>)
    requires cfg.Valid() && Damped(cfg)
    requires LeastGap(cfg) >= RecoverySpan(cfg) || Run(cfg, counts).current == cfg.initial
    ensures ComesBack(cfg, Run(cfg, counts))
  {
    var n := BackWithin(cfg, counts);
    assert AllUnderRate(cfg, Silence(n));
  }

  /** Too small a value for any hardening to move it. */
  lemma {:induction false} TinyNeverMoves(cfg: Config, counts: seq<nat>)
    requires cfg.Valid() && cfg.initial * WholeMultiplier(cfg) < cfg.evaluationsPerMinute
    ensures Run(cfg, counts).current == cfg.initial
  {
    if counts != [] {
      var n := |counts| - 1;
      TinyNeverMoves(cfg, counts[..n]);
      if OverRate(cfg, counts[n]) {
        var m, k := WholeMultiplier(cfg), ScaledRate(cfg, counts[n]);
        HardenFormula(cfg, cfg.initial, counts[n]);
        WholeMultiplierIsFloor(cfg);
        var drop := cfg.initial - cfg.initial * SCALE_FACTOR / k;
        MulMonotone(drop, cfg.initial, m);
        MulMonotone(0, drop, m);
        QuotientIs(drop * m, cfg.evaluationsPerMinute, 0);
      }
    }
  }

  // ---------------------------------------------------------------- staying away

  /** If the least hardening does not move the initial value, it moves no value below it. */
  lemma LeastMovesNothing(cfg: Config, current: int)
    requires cfg.Valid() && LeastGap(cfg) == 0 && 0 <= current <= cfg.initial
    ensures Harden(cfg, current, LeastOverRate(cfg)) == current
  {
    var e, m, k := cfg.evaluationsPerMinute, WholeMultiplier(cfg), ScaledRate(cfg, LeastOverRate(cfg));
    HardenFormula(cfg, current, LeastOverRate(cfg));
    HardenFormula(cfg, cfg.initial, LeastOverRate(cfg));
    WholeMultiplierIsFloor(cfg);
    ScaledDistance(current, cfg.initial, SCALE_FACTOR, k);
    var small, large := current - current * SCALE_FACTOR / k, cfg.initial - cfg.initial * SCALE_FACTOR / k;
    MulMonotone(0, small, m);
    MulMonotone(small, large, m);
    QuotientMonotone(0, small * m, e);
    QuotientMonotone(small * m, large * m, e);
  }

  /** The number of quiet evaluations after which the value is one step short of the initial one. */
  function AlmostBack(cfg: Config, base: int): int
    requires cfg.Valid() && cfg.initial - base >= RecoverySpan(cfg)
  {
    RecoveryTime(cfg, base) - 1
  }

  lemma AlmostBackGap(cfg: Config, base: int)
    requires cfg.Valid() && cfg.initial - base >= RecoverySpan(cfg)
    ensures AlmostBack(cfg, base) >= 0
    ensures var gap := cfg.initial - base;
            var left := gap - AlmostBack(cfg, base) * (gap / RecoverySpan(cfg));
            1 <= left < gap
  {
    var gap, span, t := cfg.initial - base, RecoverySpan(cfg), AlmostBack(cfg, base);
    RecoveryTimeBounds(cfg, base);
    QuotientAtLeast(gap, span, 1);
    QuotientBounds(gap, span);
    var step := gap / span;
    CeilDivAtMost(gap, step, t);
    CeilDivAtMost(gap, step, t + 1);
    assert step * (t + 1) == step * t + step && step * t == t * step;
    MulMonotone(10, span, step);
    assert span * step == step * span;
  }

  lemma HardenedAgain(cfg: Config, counts: seq<nat>, base: int, t: nat)
    requires cfg.Valid() && LeastGap(cfg) == 0 && 0 <= base < cfg.initial && Run(cfg, counts) == Difficulty(base, None)
    requires var step := (cfg.initial - base) / RecoverySpan(cfg); base <= base + t * step < cfg.initial
    ensures var step := (cfg.initial - base) / RecoverySpan(cfg);
            Run(cfg, counts + Silence(t) + [LeastOverRate(cfg)]) == Difficulty(base + t * step, None)
  {
    var step := (cfg.initial - base) / RecoverySpan(cfg);
    RunFromConcat(cfg, Start(cfg), counts, Silence(t));
    EasedValue(cfg, base, Silence(t));
    RunSnoc(cfg, Start(cfg), counts + Silence(t), LeastOverRate(cfg));
    LeastMovesNothing(cfg, base + t * step);
  }

  /**
   From a hardened value on, let the value come almost back and harden it by a number of
   solutions that does not move it: the steps start anew, each time from a smaller gap.
   */
  lemma {:induction false} GapShrinks(cfg: Config, counts: seq<nat>, base: int) returns (more: seq<nat>, stuck: int)
    requires cfg.Valid() && LeastGap(cfg) == 0 && 0 <= base < cfg.initial && Run(cfg, counts) == Difficulty(base, None)
    ensures 0 < cfg.initial - stuck < RecoverySpan(cfg) && Run(cfg, more) == Difficulty(stuck, None)
    decreases cfg.initial - base
  {
    if cfg.initial - base < RecoverySpan(cfg) {
      more, stuck := counts, base;
    } else {
      var t := AlmostBack(cfg, base);
      AlmostBackGap(cfg, base);
      var current := base + t * ((cfg.initial - base) / RecoverySpan(cfg));
      QuotientAtLeast(cfg.initial - base, RecoverySpan(cfg), 1);
      MulMonotone(0, t, (cfg.initial - base) / RecoverySpan(cfg));
      HardenedAgain(cfg, counts, base, t);
      more, stuck := GapShrinks(cfg, counts + Silence(t) + [LeastOverRate(cfg)], current);
    }
  }

  lemma SameRecovery(cfg: Config, base: int)
    requires cfg.Valid()
    ensures ComesBack(cfg, Difficulty(base, None)) <==> EventuallyRecovers(cfg, base)
  {
  }

  lemma StuckMeansNever(cfg: Config, counts: seq<nat>, base: int)
    requires cfg.Valid() && Run(cfg, counts) == Difficulty(base, None) && 0 < cfg.initial - base < RecoverySpan(cfg)
    ensures !AlwaysComesBack(cfg)
  {
    RecoversIffGapFillsSpan(cfg, base);
    SameRecovery(cfg, base);
  }

  lemma SomeRunStaysAway(cfg: Config)
    requires cfg.Valid() && Damped(cfg)
    requires LeastGap(cfg) < RecoverySpan(cfg) && cfg.initial * WholeMultiplier(cfg) >= cfg.evaluationsPerMinute
    ensures !AlwaysComesBack(cfg)
  {
    var least := LeastOverRate(cfg);
    HardenFromAbove(cfg, cfg.initial, least);
    if LeastGap(cfg) > 0 {
      RunSnoc(cfg, Start(cfg), [], least);
      assert [] + [least] == [least];
      StuckMeansNever(cfg, [least], cfg.initial - LeastGap(cfg));
    } else {
      var base := -Overshoot(cfg, cfg.initial);
      FloodRun(cfg, cfg.initial);
      DampedNeverOvershoots(cfg, cfg.initial);
      QuotientAtLeast(cfg.initial * WholeMultiplier(cfg), cfg.evaluationsPerMinute, 1);
      var more, stuck := GapShrinks(cfg, [Flood(cfg, cfg.initial)], base);
      StuckMeansNever(cfg, more, stuck);
    }
  }

  // ---------------------------------------------------------------- the exact condition

  /**
   Once the load stays away, the value comes back to the initial one after every run if and only
   if the smallest hardening there is leaves a gap of at least 10E, or no hardening moves the
   initial value at all.
   */
  lemma AlwaysComesBackIff(cfg: Config)
    requires cfg.Valid() && Damped(cfg)
    ensures AlwaysComesBack(cfg)
       <==> cfg.initial - Harden(cfg, cfg.initial, cfg.desired.Floor + 1) >= RecoverySpan(cfg)
            || cfg.initial * WholeMultiplier(cfg) < cfg.evaluationsPerMinute
  {
    if LeastGap(cfg) >= RecoverySpan(cfg) {
      forall counts: seq<nat> ensures ComesBack(cfg, Run(cfg, counts)) {
        ComesBackWithin(cfg, counts);
      }
    } else if cfg.initial * WholeMultiplier(cfg) < cfg.evaluationsPerMinute {
      forall counts: seq<nat> ensures ComesBack(cfg, Run(cfg, counts)) {
        TinyNeverMoves(cfg, counts);
        ComesBackWithin(cfg, counts);
      }
    } else {
      SomeRunStaysAway(cfg);
    }
  }

  /** The server's own settings: 10 solutions a minute, multiplier 1, an evaluation every ten seconds. */
  lemma ServerComesBackIff(initial: nat)
    ensures AlwaysComesBack(Config(10.0, initial, 1.0, 6)) <==> initial >= 3950 || initial < 6
  {
    var cfg := Config(10.0, initial, 1.0, 6);
    WholeMultiplierIsFloor(cfg);
    assert 1.0.Floor == 1 && 10.0.Floor == 10 && ScaledRate(cfg, 11) == 1_100_000;
    HardenFormula(cfg, initial, 11);
    AlwaysComesBackIff(cfg);
  }

  /** Eleven solutions at one evaluation a minute: 20 goes to 18, and the gap of 2 is never made up. */
  lemma StuckExample()
    ensures var cfg := Config(10.0, 20, 1.0, 1);
            Run(cfg, [11]) == Difficulty(18, None) && !ComesBack(cfg, Run(cfg, [11]))
  {
    var cfg := Config(10.0, 20, 1.0, 1);
    WholeMultiplierIsFloor(cfg);
    assert 1.0.Floor == 1 && ScaledRate(cfg, 11) == 1_100_000;
    RunSnoc(cfg, Start(cfg), [], 11);
    assert [] + [11] == [11];
    RecoversIffGapFillsSpan(cfg, 18);
    SameRecovery(cfg, 18);
  }
}
