/** The state of a proof-of-work manager, and what each of its operations does to it. */
module PowState {
  import opened Wrappers
  import opened JsMap
  import opened Hex
  import opened ProofOfWork
  import opened Difficulty

  const ONE_MINUTE := 60 * 1000

  datatype ChallengeNonces =
    ChallengeNonces(previousChallengeNonce: Option<string>, currentChallengeNonce: string,
                    nextChallengeNonce: Option<string>)

  /** An accepted response nonce and the clock reading at which it was recorded. */
  type Stamp = Entry<string, int>

  /** What a manager is created with; `period` is the nonce refresh period in milliseconds. */
  datatype Env = Env(config: Config, challengeSeed: Option<string>, period: int, digest: string -> Digest) {
    predicate Valid() {
      config.Valid() && period > 0
    }
  }

  datatype State = State(nonces: ChallengeNonces, cache: seq<Stamp>, difficulty: Difficulty)

  datatype Failure =
    | ResponseNonceReused
    | InvalidResponseNonceFormat
    | InvalidChallengeNonce
    | InsufficientSolutionNonce

  // ---------------------------------------------------------------- challenge nonces

  /** `i.toString()` on an integer. */
  function Decimal(i: int): string
    decreases if i < 0 then 1 else 0, i
  {
    if i < 0 then "-" + Decimal(-i)
    else if i < 10 then [Digit(i)]
    else Decimal(i / 10) + [Digit(i % 10)]
  }

  /** The value of a text of decimal digits. */
  function ReadDecimal(s: string): int {
    if s == "" then 0 else ReadDecimal(s[..|s| - 1]) * 10 + (s[|s| - 1] as int - '0' as int)
  }

  /** The digits of a natural number read back to it, and it is written without leading zeros; a minus sign negates. */
  lemma {:induction false} DecimalReadsBack(i: int)
    ensures i >= 0 ==>
              Decimal(i) != "" && (forall k :: 0 <= k < |Decimal(i)| ==> '0' <= Decimal(i)[k] <= '9')
              && ReadDecimal(Decimal(i)) == i && (i > 0 ==> Decimal(i)[0] != '0')
    ensures i < 0 ==> Decimal(i) == "-" + Decimal(-i)
    decreases if i < 0 then 0 else i
  {
    if i >= 10 {
      DecimalReadsBack(i / 10);
      assert Decimal(i)[..|Decimal(i)| - 1] == Decimal(i / 10);
    } else if i >= 0 {
      assert Decimal(i)[..0] == "";
    }
  }

  function IntervalId(env: Env, now: int): int
    requires env.Valid()
  {
    now / env.period
  }

  function SeedInput(seed: string, id: int): string {
    seed + Decimal(id) + seed
  }

  function SeededNonces(env: Env, seed: string, id: int): ChallengeNonces {
    ChallengeNonces(Some(env.digest(SeedInput(seed, id - 1))),
                    env.digest(SeedInput(seed, id)),
                    Some(env.digest(SeedInput(seed, id + 1))))
  }

  /** With a seed the window is a function of the clock; without one it shifts by a fresh nonce. */
  function RefreshedNonces(env: Env, nonces: ChallengeNonces, now: int, drawn: Nonce): ChallengeNonces
    requires env.Valid()
  {
    match env.challengeSeed
    case Some(seed) => SeededNonces(env, seed, IntervalId(env, now))
    case None => nonces.(previousChallengeNonce := Some(nonces.currentChallengeNonce), currentChallengeNonce := drawn)
  }

  predicate Acceptable(nonces: ChallengeNonces, challengeNonce: string) {
    challengeNonce != "" &&
    (nonces.previousChallengeNonce == Some(challengeNonce) || nonces.currentChallengeNonce == challengeNonce
     || nonces.nextChallengeNonce == Some(challengeNonce))
  }

  // ---------------------------------------------------------------- replay cache

  /** The stamps not older than `cutoff`, in their order. */
  function Since(stamps: seq<Stamp>, cutoff: int): seq<Stamp> {
    if stamps == [] then []
    else
      var rest := Since(stamps[..|stamps| - 1], cutoff);
      var last := stamps[|stamps| - 1];
      if last.value < cutoff then rest else rest + [last]
  }

  lemma SinceSnoc(stamps: seq<Stamp>, stamp: Stamp, cutoff: int)
    ensures Since(stamps + [stamp], cutoff)
         == if stamp.value < cutoff then Since(stamps, cutoff) else Since(stamps, cutoff) + [stamp]
  {
    assert (stamps + [stamp])[..|stamps + [stamp]| - 1] == stamps;
  }

  lemma {:induction false} SinceMembers(stamps: seq<Stamp>, cutoff: int)
    ensures forall s :: s in Since(stamps, cutoff) <==> s in stamps && s.value >= cutoff
  {
    if stamps != [] {
      var n := |stamps| - 1;
      SinceMembers(stamps[..n], cutoff);
      assert stamps == stamps[..n] + [stamps[n]];
    }
  }

  lemma {:induction false} NothingRecent(log: seq<Stamp>, cutoff: int)
    requires forall i :: 0 <= i < |log| ==> log[i].value < cutoff
    ensures Since(log, cutoff) == []
  {
    if log != [] {
      NothingRecent(log[..|log| - 1], cutoff);
    }
  }

  lemma {:induction false} SinceUnique(stamps: seq<Stamp>, cutoff: int)
    requires UniqueKeys(stamps)
    ensures UniqueKeys(Since(stamps, cutoff))
  {
    if stamps != [] {
      var n := |stamps| - 1;
      SinceUnique(stamps[..n], cutoff);
      SinceMembers(stamps[..n], cutoff);
      var rest := Since(stamps[..n], cutoff);
      forall i | 0 <= i < |rest| ensures rest[i].key != stamps[n].key {
        assert rest[i] in stamps[..n];
      }
    }
  }

  /** Cleaning twice is cleaning once, at the later cutoff. */
  lemma {:induction false} SinceSince(stamps: seq<Stamp>, early: int, late: int)
    requires early <= late
    ensures Since(Since(stamps, early), late) == Since(stamps, late)
  {
    if stamps != [] {
      var n := |stamps| - 1;
      SinceSince(stamps[..n], early, late);
      if stamps[n].value >= early {
        SinceSnoc(Since(stamps[..n], early), stamps[n], late);
      }
    }
  }

  /** The number of stamps kept is the number of positions with a recent enough reading. */
  lemma {:induction false} SinceCounts(stamps: seq<Stamp>, cutoff: int)
    ensures |Since(stamps, cutoff)| == |set i | 0 <= i < |stamps| && stamps[i].value >= cutoff|
  {
    var positions := set i | 0 <= i < |stamps| && stamps[i].value >= cutoff;
    if stamps != [] {
      var n := |stamps| - 1;
      SinceCounts(stamps[..n], cutoff);
      var before := set i | 0 <= i < n && stamps[..n][i].value >= cutoff;
      if stamps[n].value < cutoff {
        assert positions == before;
      } else {
        assert positions == before + {n};
      }
    } else {
      assert positions == {};
    }
  }

  // ---------------------------------------------------------------- operations

  /** The checks of one verification, in the order in which they are made. */
  function Verdict(env: Env, s: State, proof: Proof): Result<(), Failure> {
    if Has(s.cache, proof.responseNonce) then Err(ResponseNonceReused)
    else if !IsHexString(proof.responseNonce) || |proof.responseNonce| != NONCE_LENGTH
        then Err(InvalidResponseNonceFormat)
    else if !Acceptable(s.nonces, proof.challengeNonce) then Err(InvalidChallengeNonce)
    else if HashValue(env.digest, proof) > s.difficulty.current then Err(InsufficientSolutionNonce)
    else Ok(())
  }

  function Verified(env: Env, s: State, now: int, proof: Proof): State {
    if Verdict(env, s, proof).Ok? then s.(cache := Set(s.cache, proof.responseNonce, now)) else s
  }

  function Evaluated(env: Env, s: State, now: int): State
    requires env.Valid()
  {
    var cache := Since(s.cache, now - ONE_MINUTE);
    s.(cache := cache, difficulty := Refresh(env.config, s.difficulty, |cache|))
  }

  function Created(env: Env, first: Nonce): State {
    State(ChallengeNonces(None, first, None), [], Start(env.config))
  }
}
