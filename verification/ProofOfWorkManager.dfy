/** The manager object: its fields, and its operations step by step. */
module ProofOfWorkManager {
  import opened Wrappers
  import opened JsMap
  import opened BigInt
  import opened Hex
  import opened ProofOfWork
  import Difficulty
  import opened PowState

  /** The cleanup walk has settled the first `visited` entries of `before`: the cursor is behind the kept ones. */
  ghost predicate Walking(before: seq<Stamp>, visited: nat, cutoff: int, cursor: nat, live: seq<Stamp>) {
    && visited <= |before| && UniqueKeys(live)
    && cursor == |Since(before[..visited], cutoff)| && live == Since(before[..visited], cutoff) + before[visited..]
  }

  lemma NextVisited(before: seq<Stamp>, visited: nat, cutoff: int)
    requires visited < |before|
    ensures before[visited..] == [before[visited]] + before[visited + 1..]
    ensures Since(before[..visited + 1], cutoff)
         == if before[visited].value < cutoff then Since(before[..visited], cutoff)
            else Since(before[..visited], cutoff) + [before[visited]]
  {
    assert before[..visited + 1] == before[..visited] + [before[visited]];
    SinceSnoc(before[..visited], before[visited], cutoff);
  }

  lemma CleanupDeletes(before: seq<Stamp>, visited: nat, cutoff: int, cursor: nat, live: seq<Stamp>)
    requires Walking(before, visited, cutoff, cursor, live) && visited < |before| && before[visited].value < cutoff
    ensures live[cursor] == before[visited]
    ensures Walking(before, visited + 1, cutoff, cursor, Delete(live, live[cursor].key))
  {
    NextVisited(before, visited, cutoff);
    DeleteAt(live, cursor);
    assert live[..cursor] == Since(before[..visited], cutoff) && live[cursor + 1..] == before[visited + 1..];
  }

  lemma CleanupKeeps(before: seq<Stamp>, visited: nat, cutoff: int, cursor: nat, live: seq<Stamp>)
    requires Walking(before, visited, cutoff, cursor, live) && visited < |before| && before[visited].value >= cutoff
    ensures live[cursor] == before[visited]
    ensures Walking(before, visited + 1, cutoff, cursor + 1, live)
  {
    NextVisited(before, visited, cutoff);
    assert live == Since(before[..visited + 1], cutoff) + before[visited + 1..];
  }

  /** Deleting the entry at the cursor puts the next one under it; keeping it moves the cursor on. */
  lemma CleanupStep(before: seq<Stamp>, visited: nat, cutoff: int, cursor: nat, live: seq<Stamp>)
    requires Walking(before, visited, cutoff, cursor, live) && cursor < |live|
    ensures visited < |before|
    ensures if live[cursor].value < cutoff
            then Walking(before, visited + 1, cutoff, cursor, Delete(live, live[cursor].key))
            else Walking(before, visited + 1, cutoff, cursor + 1, live)
  {
    if before[visited].value < cutoff {
      CleanupDeletes(before, visited, cutoff, cursor, live);
    } else {
      CleanupKeeps(before, visited, cutoff, cursor, live);
    }
  }

  lemma CleanupEnds(before: seq<Stamp>, visited: nat, cutoff: int, cursor: nat, live: seq<Stamp>)
    requires Walking(before, visited, cutoff, cursor, live) && cursor >= |live|
    ensures live == Since(before, cutoff)
  {
    assert before[..visited] == before;
  }

  /** What hardening makes of a value, in terms of the count and the settings. */
  lemma HardenedBy(cfg: Difficulty.Config, current: int, count: nat) returns (k: int)
    requires cfg.Valid() && Difficulty.OverRate(cfg, count)
    ensures k as real * cfg.desired <= count as real * cfg.multiplier * 1_000_000.0 < (k + 1) as real * cfg.desired
    ensures k > 0 && k == Difficulty.ScaledRate(cfg, count)
    ensures Difficulty.Harden(cfg, current, count)
         == current - Div((current - Div(current * 1_000_000, k)) * cfg.multiplier.Floor, cfg.evaluationsPerMinute)
  {
    k := Difficulty.ScaledRate(cfg, count);
    Difficulty.ScaledRateExactly(cfg, count, k);
    Difficulty.HardenExactly(cfg, current, count, k);
  }

  /** The seeded window belongs to the interval the clock reading lies in. */
  lemma SeededWindow(env: Env, seed: string, now: int)
    requires env.Valid()
    ensures exists id: int :: id * env.period <= now < (id + 1) * env.period
              && SeededNonces(env, seed, IntervalId(env, now))
                 == ChallengeNonces(Some(env.digest(seed + Decimal(id - 1) + seed)),
                                    env.digest(seed + Decimal(id) + seed),
                                    Some(env.digest(seed + Decimal(id + 1) + seed)))
  {
    QuotientBounds(now, env.period);
    var id := IntervalId(env, now);
    assert id * env.period <= now < (id + 1) * env.period;
    assert SeededNonces(env, seed, id)
        == ChallengeNonces(Some(env.digest(seed + Decimal(id - 1) + seed)),
                           env.digest(seed + Decimal(id) + seed),
                           Some(env.digest(seed + Decimal(id + 1) + seed)));
  }

  class ProofOfWorkManager {
    const env: Env

    var challengeNonces: ChallengeNonces
    var proofOfWorkOfLastMinute: seq<Stamp>
    var currentMaximumAllowedHashValue: int
    var hashValueIncrementPerEvaluation: Option<int>

    ghost predicate Valid()
      reads this
    {
      env.Valid() && UniqueKeys(proofOfWorkOfLastMinute)
    }

    ghost function Model(): State
      reads this
    {
      State(challengeNonces, proofOfWorkOfLastMinute,
            Difficulty.Difficulty(currentMaximumAllowedHashValue, hashValueIncrementPerEvaluation))
    }

    /** Creation fails in the program unless the initial value is hexadecimal text. */
    constructor (env: Env, initialMaximumAllowedHashValue: string, first: Nonce)
      requires env.Valid() && IsHexString(initialMaximumAllowedHashValue)
      requires env.config.initial == Parse(initialMaximumAllowedHashValue)
      ensures Valid() && this.env == env && Model() == Created(env, first)
      ensures challengeNonces == ChallengeNonces(None, first, None) && proofOfWorkOfLastMinute == []
      ensures currentMaximumAllowedHashValue == Parse(initialMaximumAllowedHashValue)
      ensures hashValueIncrementPerEvaluation == Some(1)
    {
      this.env := env;
      challengeNonces := ChallengeNonces(None, first, None);
      proofOfWorkOfLastMinute := [];
      currentMaximumAllowedHashValue := Parse(initialMaximumAllowedHashValue);
      hashValueIncrementPerEvaluation := Some(1);
    }

    method GetProofOfWorkChallenge() returns (challengeNonce: string, maximumAllowedHashValue: string)
      ensures challengeNonce == challengeNonces.currentChallengeNonce
      ensures currentMaximumAllowedHashValue >= 0 ==>
                IsHexString(maximumAllowedHashValue) && Parse(maximumAllowedHashValue) == currentMaximumAllowedHashValue
      ensures 0 <= currentMaximumAllowedHashValue < Pow(16, 64) ==> |maximumAllowedHashValue| == 64
    {
      challengeNonce := challengeNonces.currentChallengeNonce;
      maximumAllowedHashValue := BigIntToHexString(currentMaximumAllowedHashValue);
      if currentMaximumAllowedHashValue >= 0 {
        PrintThenParse(currentMaximumAllowedHashValue);
      }
    }

    method VerifyProofOfWork(now: int, proof: Proof) returns (r: Result<(), Failure>)
      requires Valid()
      modifies this`proofOfWorkOfLastMinute
      ensures var nonce, challenge := proof.responseNonce, proof.challengeNonce;
              var used := exists i :: 0 <= i < |old(proofOfWorkOfLastMinute)|
                                      && old(proofOfWorkOfLastMinute)[i].key == nonce;
              var full := |nonce| == 64 && forall i :: 0 <= i < 64 ==>
                            '0' <= nonce[i] <= '9' || 'a' <= nonce[i] <= 'f' || 'A' <= nonce[i] <= 'F';
              var known := challenge != "" && (challengeNonces.previousChallengeNonce == Some(challenge)
                                               || challengeNonces.currentChallengeNonce == challenge
                                               || challengeNonces.nextChallengeNonce == Some(challenge));
              var hash := Parse(env.digest(challenge + nonce + proof.requestData));
              (r == Err(ResponseNonceReused) <==> used)
              && (r == Err(InvalidResponseNonceFormat) <==> !used && !full)
              && (r == Err(InvalidChallengeNonce) <==> !used && full && !known)
              && (r == Err(InsufficientSolutionNonce)
                  <==> !used && full && known && hash > currentMaximumAllowedHashValue)
              && (r == Ok(()) <==> !used && full && known && hash <= currentMaximumAllowedHashValue)
      ensures proofOfWorkOfLastMinute
           == if r.Ok? then old(proofOfWorkOfLastMinute) + [Entry(proof.responseNonce, now)]
              else old(proofOfWorkOfLastMinute)
      ensures Valid() && r == Verdict(env, old(Model()), proof)
      ensures Model() == Verified(env, old(Model()), now, proof)
    {
      if Has(proofOfWorkOfLastMinute, proof.responseNonce) {
        return Err(ResponseNonceReused);
      }
      if !IsHexString(proof.responseNonce) || |proof.responseNonce| != 64 {
        return Err(InvalidResponseNonceFormat);
      }
      var acceptableChallengeNonces := AcceptableChallengeNonces();
      if proof.challengeNonce !in acceptableChallengeNonces {
        return Err(InvalidChallengeNonce);
      }
      var sufficient := VerifyResponseNonce(env.digest, proof, currentMaximumAllowedHashValue);
      if !sufficient {
        return Err(InsufficientSolutionNonce);
      }
      SetNew(proofOfWorkOfLastMinute, proof.responseNonce, now);
      RecordProofOfWork(proof.responseNonce, now);
      return Ok(());
    }

    /** The defined, non-empty nonces of the window. */
    method AcceptableChallengeNonces() returns (nonces: seq<string>)
      ensures forall c :: c in nonces <==> Acceptable(challengeNonces, c)
      ensures forall c :: c in nonces <==>
                c != "" && (challengeNonces.previousChallengeNonce == Some(c)
                            || challengeNonces.currentChallengeNonce == c
                            || challengeNonces.nextChallengeNonce == Some(c))
    {
      nonces := [];
      if challengeNonces.previousChallengeNonce.Some? && challengeNonces.previousChallengeNonce.value != "" {
        nonces := nonces + [challengeNonces.previousChallengeNonce.value];
      }
      if challengeNonces.currentChallengeNonce != "" {
        nonces := nonces + [challengeNonces.currentChallengeNonce];
      }
      if challengeNonces.nextChallengeNonce.Some? && challengeNonces.nextChallengeNonce.value != "" {
        nonces := nonces + [challengeNonces.nextChallengeNonce.value];
      }
    }

    method RecordProofOfWork(proofOfWorkId: string, now: int)
      requires Valid()
      modifies this`proofOfWorkOfLastMinute
      ensures Valid() && proofOfWorkOfLastMinute == Set(old(proofOfWorkOfLastMinute), proofOfWorkId, now)
    {
      SetUnique(proofOfWorkOfLastMinute, proofOfWorkId, now);
      proofOfWorkOfLastMinute := Set(proofOfWorkOfLastMinute, proofOfWorkId, now);
    }

    /**
     Deletes stale entries while walking over the keys. The walk is live: when the entry under
     the cursor goes, the cursor is already on the next one.
     */
    method RemoveProofOfWorkOlderThanOneMinute(now: int)
      requires Valid()
      modifies this`proofOfWorkOfLastMinute
      ensures Valid() && proofOfWorkOfLastMinute == Since(old(proofOfWorkOfLastMinute), now - ONE_MINUTE)
      ensures forall s :: s in proofOfWorkOfLastMinute
                     <==> s in old(proofOfWorkOfLastMinute) && s.value >= now - 60_000
    {
      var oneMinuteAgo := now - 60 * 1000;
      ghost var before := proofOfWorkOfLastMinute;
      ghost var visited: nat := 0;
      var cursor := 0;
      while cursor < |proofOfWorkOfLastMinute|
        invariant 0 <= cursor && Walking(before, visited, oneMinuteAgo, cursor, proofOfWorkOfLastMinute)
        decreases |before| - visited
      {
        var entry := proofOfWorkOfLastMinute[cursor];
        CleanupStep(before, visited, oneMinuteAgo, cursor, proofOfWorkOfLastMinute);
        if entry.value < oneMinuteAgo {
          proofOfWorkOfLastMinute := Delete(proofOfWorkOfLastMinute, entry.key);
        } else {
          cursor := cursor + 1;
        }
        visited := visited + 1;
      }
      CleanupEnds(before, visited, oneMinuteAgo, cursor, proofOfWorkOfLastMinute);
      SinceMembers(before, oneMinuteAgo);
    }

    method RefreshChallengeNonce(now: int, drawn: Nonce)
      requires Valid()
      modifies this`challengeNonces
      ensures Valid() && challengeNonces == RefreshedNonces(env, old(challengeNonces), now, drawn)
      ensures env.challengeSeed.Some? ==>
                var seed := env.challengeSeed.value;
                exists id: int :: id * env.period <= now < (id + 1) * env.period
                  && challengeNonces == ChallengeNonces(Some(env.digest(seed + Decimal(id - 1) + seed)),
                                                        env.digest(seed + Decimal(id) + seed),
                                                        Some(env.digest(seed + Decimal(id + 1) + seed)))
      ensures env.challengeSeed.None? ==>
                challengeNonces == ChallengeNonces(Some(old(challengeNonces.currentChallengeNonce)), drawn,
                                                   old(challengeNonces.nextChallengeNonce))
    {
      if env.challengeSeed.Some? {
        var seed := env.challengeSeed.value;
        var currentRefreshIntervalId := now / env.period;
        var previous := NonceOfInterval(seed, currentRefreshIntervalId - 1);
        var current := NonceOfInterval(seed, currentRefreshIntervalId);
        var next := NonceOfInterval(seed, currentRefreshIntervalId + 1);
        challengeNonces := ChallengeNonces(Some(previous), current, Some(next));
        SeededWindow(env, seed, now);
      } else {
        challengeNonces := challengeNonces.(previousChallengeNonce := Some(challengeNonces.currentChallengeNonce));
        challengeNonces := challengeNonces.(currentChallengeNonce := drawn);
      }
    }

    method NonceOfInterval(seed: string, id: int) returns (nonce: Digest)
      ensures nonce == env.digest(seed + Decimal(id) + seed)
    {
      nonce := HashAsHexString(env.digest, [seed, Decimal(id), seed]);
      ConcatThree(seed, Decimal(id), seed);
    }

    method RefreshMaximumAllowedHashValue(now: int)
      requires Valid()
      modifies this`proofOfWorkOfLastMinute, this`currentMaximumAllowedHashValue, this`hashValueIncrementPerEvaluation
      ensures Valid() && Model() == Evaluated(env, old(Model()), now)
      ensures forall s :: s in proofOfWorkOfLastMinute
                     <==> s in old(proofOfWorkOfLastMinute) && s.value >= now - 60_000
      ensures Model().difficulty
           == if |proofOfWorkOfLastMinute| as real > env.config.desired
              then Difficulty.Difficulty(Difficulty.Harden(env.config, old(currentMaximumAllowedHashValue),
                                                           |proofOfWorkOfLastMinute|), None)
              else Difficulty.Ease(env.config, old(Model()).difficulty)
    {
      RemoveProofOfWorkOlderThanOneMinute(now);
      var latestSolveCountPerMinute: nat := |proofOfWorkOfLastMinute|;
      if latestSolveCountPerMinute as real > env.config.desired {
        ghost var k := MakeHarder(latestSolveCountPerMinute);
      } else {
        MakeEasier();
      }
    }

    /** `k` is the rounded-down scaled rate. */
    method MakeHarder(latestSolveCountPerMinute: nat) returns (ghost k: int)
      requires env.Valid() && Difficulty.OverRate(env.config, latestSolveCountPerMinute)
      modifies this`currentMaximumAllowedHashValue, this`hashValueIncrementPerEvaluation
      ensures currentMaximumAllowedHashValue
           == Difficulty.Harden(env.config, old(currentMaximumAllowedHashValue), latestSolveCountPerMinute)
      ensures hashValueIncrementPerEvaluation == None
      ensures var current, count := old(currentMaximumAllowedHashValue), latestSolveCountPerMinute;
              k as real * env.config.desired <= count as real * env.config.multiplier * 1_000_000.0
                < (k + 1) as real * env.config.desired
              && k > 0
              && currentMaximumAllowedHashValue
                 == current - Div((current - Div(current * 1_000_000, k)) * env.config.multiplier.Floor,
                                  env.config.evaluationsPerMinute)
    {
      k := HardenedBy(env.config, currentMaximumAllowedHashValue, latestSolveCountPerMinute);
      var scaleFactor := 1_000_000;
      var solveRate := latestSolveCountPerMinute as real / env.config.desired;
      var scaledRate := (solveRate * env.config.multiplier * (scaleFactor as real)).Floor;
      assert scaledRate == Difficulty.ScaledRate(env.config, latestSolveCountPerMinute);
      Difficulty.ScaledRateAtLeastOne(env.config, latestSolveCountPerMinute);
      var wholeMultiplier := Div((env.config.multiplier * (scaleFactor as real)).Floor, scaleFactor);
      assert wholeMultiplier == Difficulty.WholeMultiplier(env.config);
      var newPriorToMultiplierAdjustment := Div(currentMaximumAllowedHashValue * scaleFactor, scaledRate);
      var decreasePriorToFrequencyAdjustment :=
        (currentMaximumAllowedHashValue - newPriorToMultiplierAdjustment) * wholeMultiplier;
      var hashValueDecreaseAmount := Div(decreasePriorToFrequencyAdjustment, env.config.evaluationsPerMinute);
      currentMaximumAllowedHashValue := currentMaximumAllowedHashValue - hashValueDecreaseAmount;
      hashValueIncrementPerEvaluation := None;
    }

    method MakeEasier()
      requires env.Valid()
      modifies this`currentMaximumAllowedHashValue, this`hashValueIncrementPerEvaluation
      ensures Model().difficulty == Difficulty.Ease(env.config, old(Model()).difficulty)
      ensures old(currentMaximumAllowedHashValue) == env.config.initial ==>
                currentMaximumAllowedHashValue == env.config.initial
                && hashValueIncrementPerEvaluation == old(hashValueIncrementPerEvaluation)
      ensures old(currentMaximumAllowedHashValue) != env.config.initial ==>
                var gap := env.config.initial - old(currentMaximumAllowedHashValue);
                var step := if old(hashValueIncrementPerEvaluation).Some?
                            then old(hashValueIncrementPerEvaluation).value
                            else Div(gap, 10 * env.config.evaluationsPerMinute);
                hashValueIncrementPerEvaluation == Some(step)
                && currentMaximumAllowedHashValue == env.config.initial - (if step < gap then gap - step else 0)
    {
      if currentMaximumAllowedHashValue == env.config.initial {
        return;
      }
      if hashValueIncrementPerEvaluation.None? {
        var backToInitialDifficultyInMinutes := 10;
        var difference := env.config.initial - currentMaximumAllowedHashValue;
        hashValueIncrementPerEvaluation :=
          Some(Div(difference, backToInitialDifficultyInMinutes * env.config.evaluationsPerMinute));
      }
      var newValue := currentMaximumAllowedHashValue + hashValueIncrementPerEvaluation.value;
      if newValue >= env.config.initial {
        currentMaximumAllowedHashValue := env.config.initial;
      } else {
        currentMaximumAllowedHashValue := newValue;
      }
    }

    /** Both timers fire at once when the manager is started. */
    method StartTimers(now: int, drawn: Nonce)
      requires Valid()
      modifies this
      ensures Valid()
      ensures Model()
              == Evaluated(env, old(Model()).(nonces := RefreshedNonces(env, old(challengeNonces), now, drawn)), now)
    {
      RefreshChallengeNonce(now, drawn);
      RefreshMaximumAllowedHashValue(now);
    }
  }
}
