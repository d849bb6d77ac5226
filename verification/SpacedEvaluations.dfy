/**
 The range of the difficulty on whole managers, whose counts are those of proofs they accepted
 and whose evaluations are a period apart: the same exact conditions as for the controller
 alone, with one exception.
 */
module SpacedEvaluations {
  import opened JsMap
  import opened BigInt
  import opened Hex
  import opened ProofOfWork
  import opened Difficulty
  import opened DifficultyRange
  import opened DifficultyConvergence
  import opened DifficultyBounce
  import opened PowState
  import opened ManagerRuns

  predicate Spaced(events: seq<Event>, gap: int) {
    forall i, j :: 0 <= i < j < |events| && events[i].Evaluate? && events[j].Evaluate?
      ==> events[j].now - events[i].now >= gap
  }

  /** The period of the evaluations in whole milliseconds, as a timer keeps it. */
  function Period(cfg: Config): int
    requires cfg.Valid()
  {
    (60_000 + cfg.evaluationsPerMinute - 1) / cfg.evaluationsPerMinute
  }

  function ValueAfter(env: Env, first: Nonce, clock: int, events: seq<Event>): int
    requires env.Valid()
  {
    RunEvents(env, Begin(env, first, clock), events).state.difficulty.current
  }

  ghost predicate ManagerNeverEasier(env: Env, gap: int)
    requires env.Valid()
  {
    forall first: Nonce, clock: int, events: seq<Event> ::
      Timely(clock, events) && Spaced(events, gap) ==> ValueAfter(env, first, clock, events) <= env.config.initial
  }

  ghost predicate ManagerAtLeast(env: Env, gap: int, low: int)
    requires env.Valid()
  {
    forall first: Nonce, clock: int, events: seq<Event> ::
      Timely(clock, events) && Spaced(events, gap) ==> ValueAfter(env, first, clock, events) >= low
  }

  // ---------------------------------------------------------------- more than a minute apart

  /** While the value is negative, every accepted proof is older than the last evaluation. */
  ghost predicate Sealed(h: History) {
    h.state.difficulty.current < 0
    ==> h.cleanedAt.Some? && forall i :: 0 <= i < |h.log| ==> h.log[i].value <= h.cleanedAt.value
  }

  ghost predicate AtMostInitial(cfg: Config, d: Difficulty) {
    d.current <= cfg.initial && (d.increment.Some? ==> d.increment.value >= 0)
  }

  /** No hash is negative, so a negative threshold refuses every proof. */
  lemma NegativeAcceptsNothing(env: Env, s: State, proof: Proof)
    requires s.difficulty.current < 0
    ensures Verdict(env, s, proof).Err?
  {
    ParseBounds(env.digest(HashInput(proof)));
  }

  lemma SlowEvaluation(env: Env, h: History, now: int)
    requires env.Valid() && Inv(env, h) && h.clock <= now && Sealed(h) && AtMostInitial(env.config, h.state.difficulty)
    requires h.cleanedAt.Some? ==> now - h.cleanedAt.value > ONE_MINUTE
    ensures var t := ManagerRuns.After(env, h, Evaluate(now));
            Sealed(t) && AtMostInitial(env.config, t.state.difficulty)
  {
    EvaluateInv(env, h, now);
    var count := |Since(h.log, now - ONE_MINUTE)|;
    if h.state.difficulty.current < 0 {
      NothingRecent(h.log, now - ONE_MINUTE);
      EaseWithin(env.config, h.state.difficulty);
    } else if OverRate(env.config, count) {
      HardenFromAbove(env.config, h.state.difficulty.current, count);
    } else {
      EaseWithin(env.config, h.state.difficulty);
    }
  }

  lemma SlowStep(env: Env, h: History, event: Event)
    requires env.Valid() && Inv(env, h) && h.clock <= event.now
    requires Sealed(h) && AtMostInitial(env.config, h.state.difficulty)
    requires event.Evaluate? && h.cleanedAt.Some? ==> event.now - h.cleanedAt.value > ONE_MINUTE
    ensures var t := ManagerRuns.After(env, h, event);
            Sealed(t) && AtMostInitial(env.config, t.state.difficulty)
  {
    match event
    case Verify(_, proof) => if h.state.difficulty.current < 0 { NegativeAcceptsNothing(env, h.state, proof); }
    case Evaluate(now) => SlowEvaluation(env, h, now);
    case RefreshChallenge(_, _) =>
  }

  lemma {:induction false} CleanedByEvaluation(env: Env, h: History, events: seq<Event>)
    requires env.Valid() && h.cleanedAt.None? && RunEvents(env, h, events).cleanedAt.Some?
    ensures exists i :: 0 <= i < |events| && events[i] == Evaluate(RunEvents(env, h, events).cleanedAt.value)
  {
    var n := |events| - 1;
    if !events[n].Evaluate? {
      CleanedByEvaluation(env, h, events[..n]);
      var i :| 0 <= i < n && events[..n][i] == Evaluate(RunEvents(env, h, events[..n]).cleanedAt.value);
      assert events[i] == events[..n][i];
    }
  }

  lemma {:induction false} SlowRuns(env: Env, first: Nonce, clock: int, events: seq<Event>, gap: int)
    requires env.Valid() && Timely(clock, events) && Spaced(events, gap) && gap > 60_000
    ensures var h := RunEvents(env, Begin(env, first, clock), events);
            Sealed(h) && AtMostInitial(env.config, h.state.difficulty)
  {
    if events != [] {
      var n := |events| - 1;
      var before := RunEvents(env, Begin(env, first, clock), events[..n]);
      SlowRuns(env, first, clock, events[..n], gap);
      RunsKeepInv(env, Begin(env, first, clock), events[..n]);
      if before.cleanedAt.Some? {
        CleanedByEvaluation(env, Begin(env, first, clock), events[..n]);
        var i :| 0 <= i < n && events[..n][i] == Evaluate(before.cleanedAt.value);
        assert events[i] == events[..n][i];
      }
      SlowStep(env, before, events[n]);
    }
  }

  // ---------------------------------------------------------------- a batch of solved puzzles

  datatype Solution = Solution(nonce: Nonce, data: string)

  /**
   Different response nonces, each with request data under which it solves the challenge at the
   initial difficulty.
   */
  ghost predicate Solves(env: Env, challenge: string, solutions: seq<Solution>) {
    (forall i, j :: 0 <= i < j < |solutions| ==> solutions[i].nonce != solutions[j].nonce) &&
    forall i :: 0 <= i < |solutions|
      ==> HashValue(env.digest, Proof(challenge, solutions[i].nonce, solutions[i].data)) <= env.config.initial
  }

  function Submission(challenge: string, solution: Solution, now: int): Event {
    Verify(now, Proof(challenge, solution.nonce, solution.data))
  }

  function Submissions(challenge: string, solutions: seq<Solution>, now: int): (events: seq<Event>)
    ensures |events| == |solutions|
    ensures forall i :: 0 <= i < |events| ==> events[i] == Submission(challenge, solutions[i], now)
  {
    if solutions == [] then []
    else
      var n := |solutions| - 1;
      Submissions(challenge, solutions[..n], now) + [Submission(challenge, solutions[n], now)]
  }

  function Stamps(solutions: seq<Solution>, now: int): seq<Stamp> {
    seq(|solutions|, i requires 0 <= i < |solutions| => Entry(solutions[i].nonce, now))
  }

  lemma SubmissionAccepted(env: Env, h: History, challenge: string, solutions: seq<Solution>, now: int)
    requires env.Valid() && solutions != [] && Solves(env, challenge, solutions)
    requires var n := |solutions| - 1; h.state.cache == h.log == Stamps(solutions[..n], now)
    requires Acceptable(h.state.nonces, challenge) && h.state.difficulty.current == env.config.initial
    ensures var stamps := Stamps(solutions, now);
            ManagerRuns.After(env, h, Submission(challenge, solutions[|solutions| - 1], now))
              == h.(state := h.state.(cache := stamps), log := stamps, clock := now)
  {
    var n := |solutions| - 1;
    var last := solutions[n].nonce;
    assert !Has(h.state.cache, last);
    assert IsHexString(last);
    SetNew(h.state.cache, last, now);
    assert Stamps(solutions, now) == Stamps(solutions[..n], now) + [Entry(last, now)];
  }

  /** What accepting the solutions, and nothing else, makes of a history. */
  function Accepting(h: History, solutions: seq<Solution>, now: int): History {
    if solutions == [] then h
    else h.(state := h.state.(cache := Stamps(solutions, now)), log := Stamps(solutions, now), clock := now)
  }

  lemma OneMoreAccepted(env: Env, h: History, events: seq<Event>, challenge: string, solutions: seq<Solution>, now: int)
    requires env.Valid() && solutions != [] && Solves(env, challenge, solutions) && h.state.cache == h.log == []
    requires Acceptable(h.state.nonces, challenge) && h.state.difficulty.current == env.config.initial
    requires RunEvents(env, h, events) == Accepting(h, solutions[..|solutions| - 1], now)
    ensures RunEvents(env, h, events + [Submission(challenge, solutions[|solutions| - 1], now)])
         == Accepting(h, solutions, now)
  {
    RunEventsSnoc(env, h, events, Submission(challenge, solutions[|solutions| - 1], now));
    SubmissionAccepted(env, Accepting(h, solutions[..|solutions| - 1], now), challenge, solutions, now);
  }

  lemma SolvesBefore(env: Env, challenge: string, solutions: seq<Solution>)
    requires solutions != [] && Solves(env, challenge, solutions)
    ensures Solves(env, challenge, solutions[..|solutions| - 1])
  {
  }

  /** All of them are accepted, one after the other, within one millisecond. */
  lemma {:induction false} SubmissionsAccepted(env: Env, h: History, challenge: string, solutions: seq<Solution>,
                                               now: int)
    requires env.Valid() && Solves(env, challenge, solutions) && h.state.cache == h.log == []
    requires Acceptable(h.state.nonces, challenge) && h.state.difficulty.current == env.config.initial
    ensures RunEvents(env, h, Submissions(challenge, solutions, now)) == Accepting(h, solutions, now)
  {
    if solutions != [] {
      var before := solutions[..|solutions| - 1];
      SolvesBefore(env, challenge, solutions);
      SubmissionsAccepted(env, h, challenge, before, now);
      OneMoreAccepted(env, h, Submissions(challenge, before, now), challenge, solutions, now);
    }
  }

  lemma {:induction false} AllRecent(solutions: seq<Solution>, now: int, cutoff: int)
    requires cutoff <= now
    ensures Since(Stamps(solutions, now), cutoff) == Stamps(solutions, now)
  {
    if solutions != [] {
      var n := |solutions| - 1;
      AllRecent(solutions[..n], now, cutoff);
      assert Stamps(solutions, now) == Stamps(solutions[..n], now) + [Entry(solutions[n].nonce, now)];
      SinceSnoc(Stamps(solutions[..n], now), Entry(solutions[n].nonce, now), cutoff);
    }
  }

  // ---------------------------------------------------------------- a started manager under load

  /** Starting a manager refreshes its nonces and evaluates its difficulty, at once. */
  function Started(clock: int, drawn: Nonce): seq<Event> {
    [RefreshChallenge(clock, drawn)] + [Evaluate(clock)]
  }

  function AtStart(env: Env, first: Nonce, clock: int, drawn: Nonce): History
    requires env.Valid()
  {
    RunEvents(env, Begin(env, first, clock), Started(clock, drawn))
  }

  /** The challenge that a manager started at `clock` issues. */
  function FirstChallenge(env: Env, first: Nonce, clock: int, drawn: Nonce): string
    requires env.Valid()
  {
    AtStart(env, first, clock, drawn).state.nonces.currentChallengeNonce
  }

  lemma AfterStart(env: Env, first: Nonce, clock: int, drawn: Nonce)
    requires env.Valid()
    ensures var h := AtStart(env, first, clock, drawn);
            h.state.cache == h.log == [] && h.state.difficulty == Start(env.config)
            && Acceptable(h.state.nonces, FirstChallenge(env, first, clock, drawn))
  {
    var begin := Begin(env, first, clock);
    RunEventsSnoc(env, begin, [], RefreshChallenge(clock, drawn));
    assert [] + [RefreshChallenge(clock, drawn)] == [RefreshChallenge(clock, drawn)];
    RunEventsSnoc(env, begin, [RefreshChallenge(clock, drawn)], Evaluate(clock));
    WindowNoncesAreFull(env, first, clock, Started(clock, drawn), "");
  }

  /** The batch is handed in one period after the start, just before the second evaluation. */
  function OneBatch(challenge: string, drawn: Nonce, solutions: seq<Solution>, clock: int, gap: int): seq<Event> {
    Started(clock, drawn) + Submissions(challenge, solutions, clock + gap) + [Evaluate(clock + gap)]
  }

  /** The third evaluation still finds the batch in the cache. */
  function TwoEvaluations(challenge: string, drawn: Nonce, solutions: seq<Solution>, clock: int, gap: int): seq<Event> {
    OneBatch(challenge, drawn, solutions, clock, gap) + [Evaluate(clock + 2 * gap)]
  }

  lemma BatchIsTimely(challenge: string, drawn: Nonce, solutions: seq<Solution>, clock: int, gap: int)
    requires gap > 0
    ensures Timely(clock, OneBatch(challenge, drawn, solutions, clock, gap))
    ensures Spaced(OneBatch(challenge, drawn, solutions, clock, gap), gap)
    ensures Timely(clock, TwoEvaluations(challenge, drawn, solutions, clock, gap))
    ensures Spaced(TwoEvaluations(challenge, drawn, solutions, clock, gap), gap)
  {
    var events, n := TwoEvaluations(challenge, drawn, solutions, clock, gap), |solutions|;
    assert forall i :: 0 <= i < |events| ==>
      events[i].now == (if i <= 1 then clock else if i <= n + 2 then clock + gap else clock + 2 * gap)
      && (events[i].Evaluate? ==> i == 1 || i == n + 2 || i == n + 3);
    assert OneBatch(challenge, drawn, solutions, clock, gap) == events[..n + 3];
  }

  /**
   The run has accepted the batch and nothing else, all of it is in the cache, and its evaluations
   measured `counts`.
   */
  ghost predicate Holds(env: Env, h: History, events: seq<Event>, solutions: seq<Solution>, at: int, counts: seq<nat>)
    requires env.Valid()
  {
    var t := RunEvents(env, h, events);
    t.state.cache == t.log == Stamps(solutions, at) && t.state.difficulty == Run(env.config, counts)
  }

  /** The window that a history has open is used before it moves on. */
  lemma AfterSubmissions(env: Env, h: History, events: seq<Event>, challenge: string, solutions: seq<Solution>,
                         now: int)
    requires env.Valid() && Solves(env, challenge, solutions)
    requires var t := RunEvents(env, h, events);
             t.state.cache == t.log == [] && t.state.difficulty == Start(env.config)
                 && Acceptable(t.state.nonces, challenge)
    ensures Holds(env, h, events + Submissions(challenge, solutions, now), solutions, now, [])
  {
    RunEventsConcat(env, h, events, Submissions(challenge, solutions, now));
    SubmissionsAccepted(env, RunEvents(env, h, events), challenge, solutions, now);
  }

  /** One more evaluation that still sees the whole batch measures its size. */
  lemma SeesBatch(env: Env, h: History, events: seq<Event>, now: int, solutions: seq<Solution>, at: int,
                  counts: seq<nat>)
    requires env.Valid() && now - ONE_MINUTE <= at && Holds(env, h, events, solutions, at, counts)
    ensures Holds(env, h, events + [Evaluate(now)], solutions, at, counts + [|solutions|])
  {
    RunEventsSnoc(env, h, events, Evaluate(now));
    AllRecent(solutions, at, now - ONE_MINUTE);
    RunSnoc(env.config, Start(env.config), counts, |solutions|);
  }

  /** The controller's run on the batch, or on the same batch twice, is what the manager goes through. */
  lemma BatchSeenOnce(env: Env, h: History, events: seq<Event>, challenge: string, solutions: seq<Solution>, now: int)
    requires env.Valid() && Solves(env, challenge, solutions)
    requires var t := RunEvents(env, h, events);
             t.state.cache == t.log == [] && t.state.difficulty == Start(env.config)
                 && Acceptable(t.state.nonces, challenge)
    ensures Holds(env, h, events + Submissions(challenge, solutions, now) + [Evaluate(now)], solutions, now,
                  [|solutions|])
  {
    AfterSubmissions(env, h, events, challenge, solutions, now);
    SeesBatch(env, h, events + Submissions(challenge, solutions, now), now, solutions, now, []);
    assert [] + [|solutions|] == [|solutions|];
  }

  lemma BatchSeenTwice(env: Env, h: History, events: seq<Event>, challenge: string, solutions: seq<Solution>,
                       now: int, later: int)
    requires env.Valid() && Solves(env, challenge, solutions) && later - ONE_MINUTE <= now
    requires var t := RunEvents(env, h, events);
             t.state.cache == t.log == [] && t.state.difficulty == Start(env.config)
                 && Acceptable(t.state.nonces, challenge)
    ensures Holds(env, h, events + Submissions(challenge, solutions, now) + [Evaluate(now)] + [Evaluate(later)],
                  solutions, now, [|solutions|] + [|solutions|])
  {
    var once := events + Submissions(challenge, solutions, now) + [Evaluate(now)];
    BatchSeenOnce(env, h, events, challenge, solutions, now);
    SeesBatch(env, h, once, later, solutions, now, [|solutions|]);
  }

  lemma AfterOneBatch(env: Env, first: Nonce, clock: int, drawn: Nonce, solutions: seq<Solution>, gap: int)
    requires env.Valid() && gap > 0 && Solves(env, FirstChallenge(env, first, clock, drawn), solutions)
    ensures Holds(env, Begin(env, first, clock),
                  OneBatch(FirstChallenge(env, first, clock, drawn), drawn, solutions, clock, gap),
                  solutions, clock + gap, [|solutions|])
  {
    AfterStart(env, first, clock, drawn);
    BatchSeenOnce(env, Begin(env, first, clock), Started(clock, drawn), FirstChallenge(env, first, clock, drawn),
                  solutions, clock + gap);
  }

  lemma AfterTwoEvaluations(env: Env, first: Nonce, clock: int, drawn: Nonce, solutions: seq<Solution>, gap: int)
    requires env.Valid() && 0 < gap <= 60_000 && Solves(env, FirstChallenge(env, first, clock, drawn), solutions)
    ensures Holds(env, Begin(env, first, clock),
                  TwoEvaluations(FirstChallenge(env, first, clock, drawn), drawn, solutions, clock, gap),
                  solutions, clock + gap, [|solutions|] + [|solutions|])
  {
    AfterStart(env, first, clock, drawn);
    BatchSeenTwice(env, Begin(env, first, clock), Started(clock, drawn), FirstChallenge(env, first, clock, drawn),
                   solutions, clock + gap, clock + 2 * gap);
  }

  // ---------------------------------------------------------------- exact conditions

  /** The number of solutions that makes the overshoots complete, for initial values at the load floor or below. */
  function FloodCount(cfg: Config): nat
    requires cfg.Valid()
  {
    var depth := Overshoot(cfg, cfg.initial);
    Flood(cfg, cfg.initial + if depth > 0 then depth else 0)
  }

  /** Twice the desired number of solutions; only where the initial value is at most 2(E - 1) does it take more. */
  predicate EnoughLoad(cfg: Config, count: nat)
    requires cfg.Valid()
  {
    if cfg.initial > LoadFloor(cfg) then Doubled(cfg, count) else count == FloodCount(cfg)
  }

  lemma LoadBounces(cfg: Config, count: nat)
    requires cfg.Valid() && !Contained(cfg) && EnoughLoad(cfg, count)
    ensures Run(cfg, [count] + [count]).current > cfg.initial
  {
    if cfg.initial > LoadFloor(cfg) {
      ContainedIffModerate(cfg);
      DoubledTwice(cfg, count);
    } else {
      TwoFloods(cfg);
    }
  }

  lemma FloodOnce(cfg: Config)
    requires cfg.Valid()
    ensures Run(cfg, [FloodCount(cfg)]).current == -Overshoot(cfg, cfg.initial)
  {
    var depth := Overshoot(cfg, cfg.initial);
    FloodRun(cfg, cfg.initial + if depth > 0 then depth else 0);
  }

  lemma LoadUndershoots(cfg: Config, count: nat)
    requires cfg.Valid() && !Damped(cfg) && EnoughLoad(cfg, count)
    ensures Run(cfg, [count]).current < 0
  {
    if cfg.initial > LoadFloor(cfg) {
      DampedIffSmall(cfg);
      DoubledOnce(cfg, count);
    } else {
      FloodOnce(cfg);
      UndampedOvershoots(cfg);
    }
  }

  /** Two evaluations that see the same load end above the initial value in every uncontained configuration. */
  lemma BouncesAbove(env: Env, gap: int, first: Nonce, clock: int, drawn: Nonce, solutions: seq<Solution>)
    requires env.Valid() && 0 < gap <= 60_000 && !Contained(env.config)
    requires Solves(env, FirstChallenge(env, first, clock, drawn), solutions) && EnoughLoad(env.config, |solutions|)
    ensures var events := TwoEvaluations(FirstChallenge(env, first, clock, drawn), drawn, solutions, clock, gap);
            Timely(clock, events) && Spaced(events, gap) && ValueAfter(env, first, clock, events) > env.config.initial
  {
    BatchIsTimely(FirstChallenge(env, first, clock, drawn), drawn, solutions, clock, gap);
    AfterTwoEvaluations(env, first, clock, drawn, solutions, gap);
    LoadBounces(env.config, |solutions|);
  }

  /**
   "The difficulty will never be lower than the initial difficulty", over all runs of a manager
   whose evaluations are at least `gap` milliseconds apart: it holds if and only if the
   configuration is contained or the gap exceeds a minute, under every digest under which enough
   puzzles can be solved within a period.
   */
  lemma ManagerNeverEasierIff(env: Env, gap: int, first: Nonce, clock: int, drawn: Nonce, solutions: seq<Solution>)
    requires env.Valid() && gap > 0
    requires Solves(env, FirstChallenge(env, first, clock, drawn), solutions) && EnoughLoad(env.config, |solutions|)
    ensures ManagerNeverEasier(env, gap) <==> Contained(env.config) || gap > 60_000
  {
    if Contained(env.config) || gap > 60_000 {
      forall f: Nonce, c: int, events: seq<Event> | Timely(c, events) && Spaced(events, gap)
        ensures ValueAfter(env, f, c, events) <= env.config.initial
      {
        if gap > 60_000 {
          SlowRuns(env, f, c, events, gap);
        } else {
          DifficultyStaysInRange(env, f, c, events);
        }
      }
    } else {
      BouncesAbove(env, gap, first, clock, drawn, solutions);
    }
  }

  /**
   The same for initial values above 2(E - 1), where it is a condition on the multiplier alone and
   twice the desired number of solutions is enough to break the promise.
   */
  lemma ManagerNeverEasierUnderLoad(env: Env, gap: int, first: Nonce, clock: int, drawn: Nonce,
                                    solutions: seq<Solution>)
    requires env.Valid() && gap > 0 && env.config.initial > LoadFloor(env.config)
    requires Solves(env, FirstChallenge(env, first, clock, drawn), solutions)
    requires |solutions| as real >= 2.0 * env.config.desired
    ensures ManagerNeverEasier(env, gap)
       <==> WholeMultiplier(env.config) <= 2 * env.config.evaluationsPerMinute || gap > 60_000
  {
    ContainedIffModerate(env.config);
    ManagerNeverEasierIff(env, gap, first, clock, drawn, solutions);
  }

  lemma PeriodBounds(cfg: Config)
    requires cfg.Valid()
    ensures 0 < Period(cfg) <= 60_000
  {
    var e := cfg.evaluationsPerMinute;
    QuotientAtLeast(60_000 + e - 1, e, 1);
    QuotientAtLeast(60_000 + e - 1, e, 60_001);
    MulMonotone(1, e, 60_000);
  }

  /** At the pace the configuration itself sets, the multiplier decides. */
  lemma ManagerNeverEasierAtItsPeriod(env: Env, first: Nonce, clock: int, drawn: Nonce, solutions: seq<Solution>)
    requires env.Valid() && env.config.initial > LoadFloor(env.config)
    requires Solves(env, FirstChallenge(env, first, clock, drawn), solutions)
    requires |solutions| as real >= 2.0 * env.config.desired
    ensures ManagerNeverEasier(env, Period(env.config))
       <==> WholeMultiplier(env.config) <= 2 * env.config.evaluationsPerMinute
  {
    PeriodBounds(env.config);
    ManagerNeverEasierUnderLoad(env, Period(env.config), first, clock, drawn, solutions);
  }

  lemma BatchLowers(env: Env, gap: int, first: Nonce, clock: int, drawn: Nonce, solutions: seq<Solution>, low: int)
    requires env.Valid() && gap > 0 && Solves(env, FirstChallenge(env, first, clock, drawn), solutions)
    requires Run(env.config, [|solutions|]).current < low
    ensures !ManagerAtLeast(env, gap, low)
  {
    var events := OneBatch(FirstChallenge(env, first, clock, drawn), drawn, solutions, clock, gap);
    BatchIsTimely(FirstChallenge(env, first, clock, drawn), drawn, solutions, clock, gap);
    AfterOneBatch(env, first, clock, drawn, solutions, gap);
    assert ValueAfter(env, first, clock, events) < low;
  }

  /**
   Managers keep the value at 0 or more, whatever the gap, if and only if the configuration is
   damped: M <= E, for initial values above 2(E - 1).
   */
  lemma ManagerNeverNegativeIff(env: Env, gap: int, first: Nonce, clock: int, drawn: Nonce, solutions: seq<Solution>)
    requires env.Valid() && gap > 0
    requires Solves(env, FirstChallenge(env, first, clock, drawn), solutions) && EnoughLoad(env.config, |solutions|)
    ensures ManagerAtLeast(env, gap, 0) <==> Damped(env.config)
    ensures env.config.initial > LoadFloor(env.config)
        ==> (Damped(env.config) <==> WholeMultiplier(env.config) <= env.config.evaluationsPerMinute)
  {
    if env.config.initial > LoadFloor(env.config) {
      DampedIffSmall(env.config);
    }
    if Damped(env.config) {
      forall f: Nonce, c: int, events: seq<Event> | Timely(c, events) && Spaced(events, gap)
        ensures ValueAfter(env, f, c, events) >= 0
      {
        DifficultyStaysInRange(env, f, c, events);
      }
    } else {
      LoadUndershoots(env.config, |solutions|);
      BatchLowers(env, gap, first, clock, drawn, solutions, 0);
    }
  }

  /** A flood, where the multiplier is exactly E; elsewhere the usual load. */
  predicate EnoughToZero(cfg: Config, count: nat)
    requires cfg.Valid()
  {
    if WholeMultiplier(cfg) == cfg.evaluationsPerMinute then count == FloodCount(cfg) else EnoughLoad(cfg, count)
  }

  lemma LoadZeroes(cfg: Config, count: nat)
    requires cfg.Valid() && cfg.initial >= 1 && WholeMultiplier(cfg) >= cfg.evaluationsPerMinute
    requires EnoughToZero(cfg, count)
    ensures Run(cfg, [count]).current < 1
  {
    if WholeMultiplier(cfg) > cfg.evaluationsPerMinute && cfg.initial > LoadFloor(cfg) {
      DampedIffSmall(cfg);
      LoadUndershoots(cfg, count);
    } else {
      FloodOnce(cfg);
      OvershootMonotone(cfg, 0, cfg.initial);
    }
  }

  /** They keep it at the documented hardest value of 1 or more if and only if I >= 1 and M < E. */
  lemma ManagerNeverZeroIff(env: Env, gap: int, first: Nonce, clock: int, drawn: Nonce, solutions: seq<Solution>)
    requires env.Valid() && gap > 0
    requires Solves(env, FirstChallenge(env, first, clock, drawn), solutions) && EnoughToZero(env.config, |solutions|)
    ensures ManagerAtLeast(env, gap, 1)
       <==> env.config.initial >= 1 && WholeMultiplier(env.config) < env.config.evaluationsPerMinute
  {
    var cfg := env.config;
    if cfg.initial >= 1 && WholeMultiplier(cfg) < cfg.evaluationsPerMinute {
      forall f: Nonce, c: int, events: seq<Event> | Timely(c, events) && Spaced(events, gap)
        ensures ValueAfter(env, f, c, events) >= 1
      {
        DifficultyStaysInRange(env, f, c, events);
      }
    } else if cfg.initial < 1 {
      assert Timely(0, []) && Spaced([], gap) && ValueAfter(env, first, 0, []) < 1;
    } else {
      LoadZeroes(cfg, |solutions|);
      BatchLowers(env, gap, first, clock, drawn, solutions, 1);
    }
  }

  /**
   Two evaluations per minute and a multiplier of 6: 20 proofs handed in before the second
   evaluation, and the manager goes from 1000 to -1751 to 3067 with the third, 30 seconds later.
   The digest is any under which there are 20 such proofs.
   */
  lemma BounceOnManager(env: Env, first: Nonce, clock: int, drawn: Nonce, solutions: seq<Solution>)
    requires env.Valid() && env.config == Config(10.0, 1000, 6.0, 2)
    requires Solves(env, FirstChallenge(env, first, clock, drawn), solutions) && |solutions| == 20
    ensures var events := TwoEvaluations(FirstChallenge(env, first, clock, drawn), drawn, solutions, clock, 30_000);
            Timely(clock, events) && Spaced(events, 30_000) && ValueAfter(env, first, clock, events) == 3067
  {
    BounceExample();
    BatchIsTimely(FirstChallenge(env, first, clock, drawn), drawn, solutions, clock, 30_000);
    AfterTwoEvaluations(env, first, clock, drawn, solutions, 30_000);
  }

  // ---------------------------------------------------------------- solutions at hand

  function Numbered(i: nat): Nonce
    requires i < Pow(16, WIDTH)
  {
    PrintThenParse(i);
    Print(i)
  }

  function NumberedUpTo(n: nat, data: string): seq<Solution>
    requires n <= Pow(16, WIDTH)
  {
    seq(n, i requires 0 <= i < n => Solution(Numbered(i), data))
  }

  /** Under a digest of nothing but zeros, every nonce solves every challenge: 16^64 of them are at hand. */
  lemma ZeroDigestSolves(env: Env, challenge: string, data: string, n: nat)
    requires env.Valid() && n <= Pow(16, WIDTH) && forall text :: env.digest(text) == Zeros(NONCE_LENGTH)
    ensures Solves(env, challenge, NumberedUpTo(n, data)) && |NumberedUpTo(n, data)| == n
  {
    var solutions := NumberedUpTo(n, data);
    forall i, j | 0 <= i < j < n ensures solutions[i].nonce != solutions[j].nonce {
      PrintThenParse(i);
      PrintThenParse(j);
    }
    LeadingZeros(NONCE_LENGTH - 1, "0");
    assert Zeros(NONCE_LENGTH - 1) + "0" == Zeros(NONCE_LENGTH);
  }
}
