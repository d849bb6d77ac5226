/**
 Whole runs of one manager: verifications, difficulty evaluations and nonce refreshes in any
 order, under a clock that never runs backwards. The history kept beside the state is what an
 observer would write down.
 */
module ManagerRuns {
  import opened Wrappers
  import opened JsMap
  import opened BigInt
  import opened Hex
  import opened ProofOfWork
  import opened Difficulty
  import opened DifficultyRange
  import opened PowState
  import Manager = ProofOfWorkManager

  /** A verification runs from its first check to the recording without giving way, so it is one step. */
  datatype Event =
    | Verify(now: int, proof: Proof)
    | Evaluate(now: int)
    | RefreshChallenge(now: int, drawn: Nonce)

  /**
   `log` holds every acceptance, `counts` the number of acceptances of the last minute at each
   evaluation according to the log, and `nonces` every challenge nonce ever made current.
   */
  datatype History =
    History(state: State, log: seq<Stamp>, counts: seq<nat>, nonces: seq<string>, clock: int, cleanedAt: Option<int>)

  function Begin(env: Env, first: Nonce, clock: int): History {
    History(Created(env, first), [], [], [first], clock, None)
  }

  function After(env: Env, h: History, event: Event): History
    requires env.Valid()
  {
    match event
    case Verify(now, proof) =>
      h.(state := Verified(env, h.state, now, proof), clock := now,
         log := if Verdict(env, h.state, proof).Ok? then h.log + [Entry(proof.responseNonce, now)] else h.log)
    case Evaluate(now) =>
      h.(state := Evaluated(env, h.state, now), clock := now, cleanedAt := Some(now),
         counts := h.counts + [|Since(h.log, now - ONE_MINUTE)|])
    case RefreshChallenge(now, drawn) =>
      var nonces := RefreshedNonces(env, h.state.nonces, now, drawn);
      h.(state := h.state.(nonces := nonces), clock := now, nonces := h.nonces + [nonces.currentChallengeNonce])
  }

  function RunEvents(env: Env, h: History, events: seq<Event>): History
    requires env.Valid()
  {
    if events == [] then h
    else After(env, RunEvents(env, h, events[..|events| - 1]), events[|events| - 1])
  }

  /** One event carried out on the manager object: the object goes through the states of the run. */
  method Perform(manager: Manager.ProofOfWorkManager, event: Event, ghost h: History)
    requires manager.Valid() && h.state == manager.Model()
    modifies manager
    ensures manager.Valid() && manager.Model() == After(manager.env, h, event).state
  {
    match event {
      case Verify(now, proof) =>
        var verdict := manager.VerifyProofOfWork(now, proof);
      case Evaluate(now) =>
        manager.RefreshMaximumAllowedHashValue(now);
      case RefreshChallenge(now, drawn) =>
        manager.RefreshChallengeNonce(now, drawn);
    }
  }

  /** The clock readings of the events never decrease. */
  predicate Timely(clock: int, events: seq<Event>) {
    (forall i :: 0 <= i < |events| ==> clock <= events[i].now) &&
    (forall i, j :: 0 <= i < j < |events| ==> events[i].now <= events[j].now)
  }

  lemma RunEventsSnoc(env: Env, h: History, events: seq<Event>, event: Event)
    requires env.Valid()
    ensures RunEvents(env, h, events + [event]) == After(env, RunEvents(env, h, events), event)
  {
    assert (events + [event])[..|events + [event]| - 1] == events;
  }

  lemma TimelySnoc(clock: int, events: seq<Event>, event: Event)
    requires Timely(clock, events + [event])
    ensures Timely(clock, events) && clock <= event.now && (events != [] ==> events[|events| - 1].now <= event.now)
  {
    var all := events + [event];
    assert all[|events|] == event && forall i :: 0 <= i < |events| ==> all[i] == events[i];
  }

  lemma {:induction false} RunEventsConcat(env: Env, h: History, pre: seq<Event>, post: seq<Event>)
    requires env.Valid()
    ensures RunEvents(env, h, pre + post) == RunEvents(env, RunEvents(env, h, pre), post)
  {
    if post == [] {
      assert pre + post == pre;
    } else {
      var init, last := post[..|post| - 1], post[|post| - 1];
      RunEventsConcat(env, h, pre, init);
      assert post == init + [last] && pre + post == (pre + init) + [last];
      RunEventsSnoc(env, h, pre + init, last);
      RunEventsSnoc(env, RunEvents(env, h, pre), init, last);
    }
  }

  // ---------------------------------------------------------------- invariant

  function KeptSince(log: seq<Stamp>, cleanedAt: Option<int>): seq<Stamp> {
    match cleanedAt
    case None => log
    case Some(u) => Since(log, u - ONE_MINUTE)
  }

  /** Equal response nonces in the log are more than a minute apart. */
  ghost predicate NoReplayWithinMinute(log: seq<Stamp>) {
    forall i, j :: 0 <= i < j < |log| && log[i].key == log[j].key ==> log[j].value - log[i].value > ONE_MINUTE
  }

  ghost predicate Inv(env: Env, h: History)
    requires env.Valid()
  {
    && (forall i :: 0 <= i < |h.log| ==> h.log[i].value <= h.clock)
    && (h.cleanedAt.Some? ==> h.cleanedAt.value <= h.clock)
    && h.state.cache == KeptSince(h.log, h.cleanedAt)
    && UniqueKeys(h.state.cache)
    && NoReplayWithinMinute(h.log)
    && h.state.difficulty == Run(env.config, h.counts)
    && h.nonces != []
    && h.state.nonces.currentChallengeNonce == h.nonces[|h.nonces| - 1]
  }

  /** What is no longer in the cache was accepted more than a minute ago. */
  lemma GoneFromCacheIsOld(h: History, i: nat, now: int)
    requires h.state.cache == KeptSince(h.log, h.cleanedAt) && i < |h.log| && !Has(h.state.cache, h.log[i].key)
    requires h.cleanedAt.Some? ==> h.cleanedAt.value <= now
    ensures now - h.log[i].value > ONE_MINUTE
  {
    assert h.log[i] !in h.state.cache;
    if h.cleanedAt.Some? {
      SinceMembers(h.log, h.cleanedAt.value - ONE_MINUTE);
    }
  }

  lemma NoReplaySnoc(log: seq<Stamp>, stamp: Stamp)
    requires NoReplayWithinMinute(log)
    requires forall i :: 0 <= i < |log| && log[i].key == stamp.key ==> stamp.value - log[i].value > ONE_MINUTE
    ensures NoReplayWithinMinute(log + [stamp])
  {
  }

  /** An accepted nonce that is not in the cache is not in the log of the last minute either. */
  lemma AcceptedIsNew(h: History, stamp: Stamp)
    requires h.state.cache == KeptSince(h.log, h.cleanedAt) && !Has(h.state.cache, stamp.key)
    requires NoReplayWithinMinute(h.log) && (h.cleanedAt.Some? ==> h.cleanedAt.value <= stamp.value)
    ensures NoReplayWithinMinute(h.log + [stamp])
  {
    forall i | 0 <= i < |h.log| && h.log[i].key == stamp.key ensures stamp.value - h.log[i].value > ONE_MINUTE {
      GoneFromCacheIsOld(h, i, stamp.value);
    }
    NoReplaySnoc(h.log, stamp);
  }

  lemma KeptSinceSnoc(log: seq<Stamp>, stamp: Stamp, cleanedAt: Option<int>)
    requires cleanedAt.Some? ==> cleanedAt.value <= stamp.value
    ensures KeptSince(log + [stamp], cleanedAt) == KeptSince(log, cleanedAt) + [stamp]
  {
    if cleanedAt.Some? {
      SinceSnoc(log, stamp, cleanedAt.value - ONE_MINUTE);
    }
  }

  lemma VerifyInv(env: Env, h: History, now: int, proof: Proof)
    requires env.Valid() && Inv(env, h) && h.clock <= now
    ensures Inv(env, After(env, h, Verify(now, proof)))
  {
    if Verdict(env, h.state, proof).Ok? {
      var stamp := Entry(proof.responseNonce, now);
      SetNew(h.state.cache, proof.responseNonce, now);
      AcceptedIsNew(h, stamp);
      KeptSinceSnoc(h.log, stamp, h.cleanedAt);
    }
  }

  /** A cleanup at `now` leaves what the log has from the last minute, whenever the cache was cleaned before. */
  lemma CleanedCache(h: History, now: int)
    requires h.state.cache == KeptSince(h.log, h.cleanedAt) && UniqueKeys(h.state.cache)
    requires h.cleanedAt.Some? ==> h.cleanedAt.value <= now
    ensures Since(h.state.cache, now - ONE_MINUTE) == Since(h.log, now - ONE_MINUTE)
    ensures UniqueKeys(Since(h.state.cache, now - ONE_MINUTE))
  {
    SinceUnique(h.state.cache, now - ONE_MINUTE);
    if h.cleanedAt.Some? {
      SinceSince(h.log, h.cleanedAt.value - ONE_MINUTE, now - ONE_MINUTE);
    }
  }

  lemma EvaluateInv(env: Env, h: History, now: int)
    requires env.Valid() && Inv(env, h) && h.clock <= now
    ensures Inv(env, After(env, h, Evaluate(now)))
    ensures After(env, h, Evaluate(now)).state.cache == Since(h.log, now - ONE_MINUTE)
  {
    CleanedCache(h, now);
    RunSnoc(env.config, Start(env.config), h.counts, |Since(h.log, now - ONE_MINUTE)|);
  }

  lemma {:induction false} RunsKeepInv(env: Env, h: History, events: seq<Event>)
    requires env.Valid() && Inv(env, h) && Timely(h.clock, events)
    ensures Inv(env, RunEvents(env, h, events))
    ensures RunEvents(env, h, events).clock == if events == [] then h.clock else events[|events| - 1].now
  {
    if events != [] {
      var n := |events| - 1;
      RunsKeepInv(env, h, events[..n]);
      var before := RunEvents(env, h, events[..n]);
      match events[n]
      case Verify(now, proof) => VerifyInv(env, before, now, proof);
      case Evaluate(now) => EvaluateInv(env, before, now);
      case RefreshChallenge(_, _) =>
    }
  }

  // ---------------------------------------------------------------- consequences for every run

  /** Two acceptances of one response nonce are strictly more than a minute apart, however events interleave. */
  lemma ReplaySafety(env: Env, first: Nonce, clock: int, events: seq<Event>, i: nat, j: nat)
    requires env.Valid() && Timely(clock, events)
    requires i < j < |RunEvents(env, Begin(env, first, clock), events).log|
    ensures var log := RunEvents(env, Begin(env, first, clock), events).log;
            log[i].key == log[j].key ==> log[j].value - log[i].value > 60_000
  {
    RunsKeepInv(env, Begin(env, first, clock), events);
  }

  /** Nothing is ever recorded but nonces of 64 hexadecimal digits. */
  lemma {:induction false} LoggedNoncesAreHex(env: Env, first: Nonce, clock: int, events: seq<Event>, i: nat)
    requires env.Valid() && i < |RunEvents(env, Begin(env, first, clock), events).log|
    ensures var nonce := RunEvents(env, Begin(env, first, clock), events).log[i].key;
            |nonce| == 64 && forall k :: 0 <= k < 64 ==>
              '0' <= nonce[k] <= '9' || 'a' <= nonce[k] <= 'f' || 'A' <= nonce[k] <= 'F'
  {
    var n := |events| - 1;
    if i < |RunEvents(env, Begin(env, first, clock), events[..n]).log| {
      LoggedNoncesAreHex(env, first, clock, events[..n], i);
    }
  }

  lemma LatestStays(log: seq<Stamp>, i: nat, u: int)
    requires i < |log| && NoReplayWithinMinute(log)
    requires forall j :: i < j < |log| ==> log[j].key != log[i].key
    ensures Has(Since(log, u - ONE_MINUTE), log[i].key) <==> u <= log[i].value + ONE_MINUTE
  {
    var kept := Since(log, u - ONE_MINUTE);
    SinceMembers(log, u - ONE_MINUTE);
    if u <= log[i].value + ONE_MINUTE {
      assert log[i] in kept;
    } else {
      forall k | 0 <= k < |kept| ensures kept[k].key != log[i].key {
        assert kept[k] in kept;
        var j :| 0 <= j < |log| && log[j] == kept[k];
      }
    }
  }

  /**
   The bound cannot be improved by a millisecond: an acceptance recorded at `t` is still in
   the way after an evaluation at `t + 60_000`, and out of the way after one at `t + 60_001`.
   */
  lemma ReplayWindowIsExact(env: Env, h: History, i: nat, u: int)
    requires env.Valid() && Inv(env, h) && h.clock <= u && i < |h.log|
    requires forall j :: i < j < |h.log| ==> h.log[j].key != h.log[i].key
    ensures Has(After(env, h, Evaluate(u)).state.cache, h.log[i].key) <==> u <= h.log[i].value + 60_000
  {
    EvaluateInv(env, h, u);
    LatestStays(h.log, i, u);
  }

  lemma RateAfterEvaluation(env: Env, h: History, u: int)
    requires env.Valid() && Inv(env, h) && h.clock <= u
    ensures var after := After(env, h, Evaluate(u));
            var recent := set i | 0 <= i < |h.log| && h.log[i].value >= u - 60_000;
            |after.state.cache| == |recent|
            && after.state.difficulty == Refresh(env.config, h.state.difficulty, |recent|)
  {
    EvaluateInv(env, h, u);
    SinceCounts(h.log, u - ONE_MINUTE);
  }

  /**
   Right after the cleanup of an evaluation at `u`, the cache holds as many nonces as the log
   has acceptances from `u - 60_000` on, and the controller acts on that number.
   */
  lemma MeasuredRateIsExact(env: Env, first: Nonce, clock: int, events: seq<Event>, u: int)
    requires env.Valid() && Timely(clock, events + [Evaluate(u)])
    ensures var before := RunEvents(env, Begin(env, first, clock), events);
            var after := RunEvents(env, Begin(env, first, clock), events + [Evaluate(u)]);
            var recent := set i | 0 <= i < |before.log| && before.log[i].value >= u - 60_000;
            |after.state.cache| == |recent|
            && after.state.difficulty == Refresh(env.config, before.state.difficulty, |recent|)
  {
    TimelySnoc(clock, events, Evaluate(u));
    RunsKeepInv(env, Begin(env, first, clock), events);
    RunEventsSnoc(env, Begin(env, first, clock), events, Evaluate(u));
    RateAfterEvaluation(env, RunEvents(env, Begin(env, first, clock), events), u);
  }

  /** The manager's difficulty is the controller's, fed with the true counts; so every range result carries over. */
  lemma DifficultyStaysInRange(env: Env, first: Nonce, clock: int, events: seq<Event>)
    requires env.Valid() && Timely(clock, events)
    ensures var h := RunEvents(env, Begin(env, first, clock), events);
            h.state.difficulty == Run(env.config, h.counts)
            && (Contained(env.config) ==> h.state.difficulty.current <= env.config.initial)
            && (Damped(env.config) ==> 0 <= h.state.difficulty.current <= env.config.initial)
            && (env.config.initial >= 1 && WholeMultiplier(env.config) < env.config.evaluationsPerMinute
                ==> 1 <= h.state.difficulty.current <= env.config.initial)
  {
    RunsKeepInv(env, Begin(env, first, clock), events);
    var h := RunEvents(env, Begin(env, first, clock), events);
    if Contained(env.config) {
      ContainedRuns(env.config, h.counts, if Damped(env.config) then 0 else -Overshoot(env.config, env.config.initial));
    }
    if Damped(env.config) {
      DampedRunsStayInRange(env.config, Start(env.config), h.counts);
    }
    if env.config.initial >= 1 && WholeMultiplier(env.config) < env.config.evaluationsPerMinute {
      SmallMultiplierRuns(env.config, h.counts);
    }
  }

  /** With an initial value of at most 64 digits, every challenge issued states the real threshold in 64 digits. */
  lemma IssuedThresholdIsExact(env: Env, first: Nonce, clock: int, events: seq<Event>)
    requires env.Valid() && Timely(clock, events) && Damped(env.config) && env.config.initial < Pow(16, WIDTH)
    ensures var current := RunEvents(env, Begin(env, first, clock), events).state.difficulty.current;
            |Print(current)| == WIDTH && IsHexString(Print(current)) && Parse(Print(current)) == current
  {
    DifficultyStaysInRange(env, first, clock, events);
    PrintThenParse(RunEvents(env, Begin(env, first, clock), events).state.difficulty.current);
  }

  /** Every nonce the window can hold, seeded or not, has its full 64 characters. */
  lemma {:induction false} WindowNoncesAreFull(env: Env, first: Nonce, clock: int, events: seq<Event>, c: string)
    requires env.Valid()
    ensures Acceptable(RunEvents(env, Begin(env, first, clock), events).state.nonces, c) ==> |c| == NONCE_LENGTH
    ensures |RunEvents(env, Begin(env, first, clock), events).state.nonces.currentChallengeNonce| == NONCE_LENGTH
  {
    if events != [] {
      WindowNoncesAreFull(env, first, clock, events[..|events| - 1], c);
    }
  }

  // ---------------------------------------------------------------- challenge lifetime without a seed

  ghost predicate WindowIsLastTwo(h: History) {
    var n := |h.nonces|;
    && n >= 1
    && (forall i :: 0 <= i < n ==> h.nonces[i] != "")
    && h.state.nonces
       == ChallengeNonces(if n >= 2 then Some(h.nonces[n - 2]) else None, h.nonces[n - 1], None)
  }

  lemma StepKeepsWindow(env: Env, h: History, event: Event)
    requires env.Valid() && env.challengeSeed.None? && WindowIsLastTwo(h)
    ensures WindowIsLastTwo(After(env, h, event))
    ensures After(env, h, event).nonces == if event.RefreshChallenge? then h.nonces + [event.drawn] else h.nonces
  {
  }

  function Refreshes(events: seq<Event>): nat {
    if events == [] then 0
    else Refreshes(events[..|events| - 1]) + if events[|events| - 1].RefreshChallenge? then 1 else 0
  }

  lemma {:induction false} RunsKeepWindow(env: Env, h: History, events: seq<Event>)
    requires env.Valid() && env.challengeSeed.None? && WindowIsLastTwo(h)
    ensures WindowIsLastTwo(RunEvents(env, h, events))
    ensures h.nonces <= RunEvents(env, h, events).nonces
    ensures |RunEvents(env, h, events).nonces| == |h.nonces| + Refreshes(events)
  {
    if events != [] {
      var n := |events| - 1;
      RunsKeepWindow(env, h, events[..n]);
      StepKeepsWindow(env, RunEvents(env, h, events[..n]), events[n]);
    }
  }

  /** Where the nonce issued at `h` stands among the nonces generated by the end of `post`. */
  lemma IssuedPosition(env: Env, h: History, post: seq<Event>)
    requires env.Valid() && env.challengeSeed.None? && WindowIsLastTwo(h)
    ensures var after := RunEvents(env, h, post);
            var at := |after.nonces| - 1 - Refreshes(post);
            WindowIsLastTwo(after) && 0 <= at && after.nonces[at] == h.state.nonces.currentChallengeNonce
  {
    RunsKeepWindow(env, h, post);
  }

  ghost predicate Distinct(nonces: seq<string>) {
    forall i, j :: 0 <= i < j < |nonces| ==> nonces[i] != nonces[j]
  }

  lemma WindowHolds(h: History, at: nat)
    requires WindowIsLastTwo(h) && at < |h.nonces|
    ensures at >= |h.nonces| - 2 ==> Acceptable(h.state.nonces, h.nonces[at])
    ensures Distinct(h.nonces) && Acceptable(h.state.nonces, h.nonces[at]) ==> at >= |h.nonces| - 2
  {
  }

  lemma BeginsWithWindow(env: Env, first: Nonce, clock: int, pre: seq<Event>)
    requires env.Valid() && env.challengeSeed.None?
    ensures WindowIsLastTwo(RunEvents(env, Begin(env, first, clock), pre))
  {
    RunsKeepWindow(env, Begin(env, first, clock), pre);
  }

  /** The acceptable challenge nonces are exactly the last two generated ones. */
  lemma AcceptableAreLastTwo(env: Env, first: Nonce, clock: int, events: seq<Event>, c: string)
    requires env.Valid() && env.challengeSeed.None?
    ensures var h := RunEvents(env, Begin(env, first, clock), events);
            var n := |h.nonces|;
            n == 1 + Refreshes(events) &&
            (Acceptable(h.state.nonces, c) <==> c == h.nonces[n - 1] || (n >= 2 && c == h.nonces[n - 2]))
  {
    RunsKeepWindow(env, Begin(env, first, clock), events);
  }

  lemma LifetimeFrom(env: Env, h: History, post: seq<Event>)
    requires env.Valid() && env.challengeSeed.None? && WindowIsLastTwo(h)
    ensures var after := RunEvents(env, h, post);
            (Refreshes(post) <= 1 ==> Acceptable(after.state.nonces, h.state.nonces.currentChallengeNonce))
            && (Distinct(after.nonces) && Acceptable(after.state.nonces, h.state.nonces.currentChallengeNonce)
                ==> Refreshes(post) <= 1)
  {
    IssuedPosition(env, h, post);
    var after := RunEvents(env, h, post);
    WindowHolds(after, |after.nonces| - 1 - Refreshes(post));
  }

  /**
   A challenge issued after `pre` is still accepted after `pre + post` if and only if at most
   one refresh happened in between, whatever the clock readings, when no nonce is drawn twice.
   */
  lemma ChallengeLifetime(env: Env, first: Nonce, clock: int, pre: seq<Event>, post: seq<Event>)
    requires env.Valid() && env.challengeSeed.None?
    requires Distinct(RunEvents(env, Begin(env, first, clock), pre + post).nonces)
    ensures var issued := RunEvents(env, Begin(env, first, clock), pre).state.nonces.currentChallengeNonce;
            var window := RunEvents(env, Begin(env, first, clock), pre + post).state.nonces;
            Acceptable(window, issued) <==> Refreshes(post) <= 1
  {
    BeginsWithWindow(env, first, clock, pre);
    RunEventsConcat(env, Begin(env, first, clock), pre, post);
    LifetimeFrom(env, RunEvents(env, Begin(env, first, clock), pre), post);
  }

  // ---------------------------------------------------------------- from search to acceptance

  /**
   A nonce found for the text of a challenge is accepted by any manager with the same digest
   whose window still has the challenge, whose cache does not hold the nonce, and whose
   threshold is no harder than the one issued.
   */
  lemma FoundNonceIsAccepted(env: Env, issuer: State, env': Env, acceptor: State, requestData: string, nonce: Nonce)
    requires env.digest == env'.digest
    requires IsHexString(Print(issuer.difficulty.current)) &&
             Qualifies(env.digest, Print(issuer.difficulty.current), issuer.nonces.currentChallengeNonce, requestData,
                       nonce)
    requires Acceptable(acceptor.nonces, issuer.nonces.currentChallengeNonce)
    requires !Has(acceptor.cache, nonce)
    requires acceptor.difficulty.current >= issuer.difficulty.current
    ensures Verdict(env', acceptor, Proof(issuer.nonces.currentChallengeNonce, nonce, requestData)) == Ok(())
  {
    PrintIsHexIffNonNegative(issuer.difficulty.current);
    PrintThenParse(issuer.difficulty.current);
  }

  /** An issued challenge outlives one refresh, drawn nonces distinct or not. */
  lemma IssuedSurvivesOneRefresh(env: Env, first: Nonce, clock: int, pre: seq<Event>, post: seq<Event>)
    requires env.Valid() && env.challengeSeed.None? && Refreshes(post) <= 1
    ensures var issued := RunEvents(env, Begin(env, first, clock), pre).state.nonces.currentChallengeNonce;
            Acceptable(RunEvents(env, Begin(env, first, clock), pre + post).state.nonces, issued)
  {
    BeginsWithWindow(env, first, clock, pre);
    RunEventsConcat(env, Begin(env, first, clock), pre, post);
    LifetimeFrom(env, RunEvents(env, Begin(env, first, clock), pre), post);
  }

  /** The same on one unseeded manager, from the challenge to the acceptance, over any run in between. */
  lemma ChallengeToAcceptance(env: Env, first: Nonce, clock: int, pre: seq<Event>, post: seq<Event>,
                              requestData: string, nonce: Nonce)
    requires env.Valid() && env.challengeSeed.None?
    requires var issuer := RunEvents(env, Begin(env, first, clock), pre).state;
             IsHexString(Print(issuer.difficulty.current)) &&
             Qualifies(env.digest, Print(issuer.difficulty.current), issuer.nonces.currentChallengeNonce, requestData,
                       nonce)
    requires Refreshes(post) <= 1
    requires var issuer := RunEvents(env, Begin(env, first, clock), pre).state;
             var acceptor := RunEvents(env, Begin(env, first, clock), pre + post).state;
             !Has(acceptor.cache, nonce) && acceptor.difficulty.current >= issuer.difficulty.current
    ensures var challenge := RunEvents(env, Begin(env, first, clock), pre).state.nonces.currentChallengeNonce;
            var acceptor := RunEvents(env, Begin(env, first, clock), pre + post).state;
            Verdict(env, acceptor, Proof(challenge, nonce, requestData)) == Ok(())
  {
    IssuedSurvivesOneRefresh(env, first, clock, pre, post);
    FoundNonceIsAccepted(env, RunEvents(env, Begin(env, first, clock), pre).state,
                         env, RunEvents(env, Begin(env, first, clock), pre + post).state, requestData, nonce);
  }
}
