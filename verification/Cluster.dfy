/**
 Nodes that share a challenge seed and a refresh period: when does one node accept a challenge
 issued by another? Nothing is assumed of the digest except, where named, that it does not
 collide on the few texts that the two nodes hash.
 */
module Cluster {
  import opened Wrappers
  import BigInt
  import JsMap
  import opened Hex
  import opened ProofOfWork
  import opened PowState
  import opened ManagerRuns

  // ---------------------------------------------------------------- the hashed texts

  lemma {:induction false} DecimalDigits(i: int)
    requires i >= 0
    ensures Decimal(i) != "" && forall k :: 0 <= k < |Decimal(i)| ==> '0' <= Decimal(i)[k] <= '9'
    ensures i >= 10 ==> |Decimal(i)| >= 2
  {
    if i >= 10 {
      DecimalDigits(i / 10);
    }
  }

  lemma DecimalSign(i: int)
    requires i < 0
    ensures Decimal(i) == "-" + Decimal(-i) && Decimal(i)[0] == '-'
  {
  }

  lemma {:induction false} NaturalDecimalInjective(i: nat, j: nat)
    requires Decimal(i) == Decimal(j)
    ensures i == j
  {
    DecimalDigits(i);
    DecimalDigits(j);
    if i >= 10 {
      var n := |Decimal(i)| - 1;
      assert Decimal(i) == Decimal(i / 10) + [Digit(i % 10)] && Decimal(j) == Decimal(j / 10) + [Digit(j % 10)];
      assert Decimal(i)[..n] == Decimal(i / 10) && Decimal(j)[..n] == Decimal(j / 10);
      NaturalDecimalInjective(i / 10, j / 10);
      assert Decimal(i)[n] == Digit(i % 10) && Decimal(j)[n] == Digit(j % 10);
    }
  }

  lemma DecimalInjective(i: int, j: int)
    requires Decimal(i) == Decimal(j)
    ensures i == j
  {
    if i < 0 && j < 0 {
      DecimalSign(i);
      DecimalSign(j);
      assert Decimal(i)[1..] == Decimal(-i) && Decimal(j)[1..] == Decimal(-j);
      NaturalDecimalInjective(-i, -j);
    } else if i < 0 || j < 0 {
      DecimalDigits(if i < 0 then j else i);
      DecimalSign(if i < 0 then i else j);
      assert false;
    } else {
      NaturalDecimalInjective(i, j);
    }
  }

  /** Different interval ids give different texts to hash, whatever the seed. */
  lemma SeedInputInjective(seed: string, i: int, j: int)
    ensures seed + Decimal(i) + seed == seed + Decimal(j) + seed <==> i == j
    ensures SeedInput(seed, i) == SeedInput(seed, j) <==> i == j
  {
    if SeedInput(seed, i) == SeedInput(seed, j) {
      var a, b := SeedInput(seed, i), SeedInput(seed, j);
      var n, m := |seed|, |a| - |seed|;
      assert a[n..m] == Decimal(i) && b[n..m] == Decimal(j);
      DecimalInjective(i, j);
    }
  }

  /** And different seeds give different texts, at every interval. */
  lemma SeedInputKeepsSeed(seed: string, seed': string, id: int)
    ensures seed + Decimal(id) + seed == seed' + Decimal(id) + seed' <==> seed == seed'
  {
    var a, b := seed + Decimal(id) + seed, seed' + Decimal(id) + seed';
    if a == b {
      assert seed == a[..|seed|] && seed' == b[..|seed'|];
    }
  }

  ghost predicate CollisionFree(env: Env, seed: string, ids: set<int>) {
    forall i, j :: i in ids && j in ids && env.digest(SeedInput(seed, i)) == env.digest(SeedInput(seed, j))
      ==> SeedInput(seed, i) == SeedInput(seed, j)
  }

  /** The interval ids whose nonces are compared when `b`'s window is asked about `a`'s challenge. */
  function ComparedIds(env: Env, a: int, b: int): set<int>
    requires env.Valid()
  {
    {IntervalId(env, a), IntervalId(env, b) - 1, IntervalId(env, b), IntervalId(env, b) + 1}
  }

  predicate Adjacent(env: Env, a: int, b: int)
    requires env.Valid()
  {
    -1 <= IntervalId(env, a) - IntervalId(env, b) <= 1
  }

  // ---------------------------------------------------------------- two nodes

  /** The two managers agree on everything that determines seeded nonces. */
  ghost predicate SameCluster(env: Env, env': Env) {
    env.Valid() && env'.Valid() && env.challengeSeed.Some? && env.challengeSeed == env'.challengeSeed
    && env.period == env'.period && env.digest == env'.digest
  }

  function LastRefresh(events: seq<Event>): Option<int> {
    if events == [] then None
    else if events[|events| - 1].RefreshChallenge? then Some(events[|events| - 1].now)
    else LastRefresh(events[..|events| - 1])
  }

  /** The window is the one a refresh at clock reading `at` leaves behind. */
  ghost predicate RefreshedAt(env: Env, nonces: ChallengeNonces, at: int) {
    env.Valid() && env.challengeSeed.Some?
    && nonces == SeededNonces(env, env.challengeSeed.value, IntervalId(env, at))
  }

  /** After its first refresh a seeded window depends on nothing but the reading of the last refresh. */
  lemma {:induction false} WindowFollowsClock(env: Env, h: History, events: seq<Event>)
    requires env.Valid() && env.challengeSeed.Some? && LastRefresh(events).Some?
    ensures RefreshedAt(env, RunEvents(env, h, events).state.nonces, LastRefresh(events).value)
  {
    if !events[|events| - 1].RefreshChallenge? {
      WindowFollowsClock(env, h, events[..|events| - 1]);
    }
  }

  /**
   The window of interval `j` holds the nonce of interval `i` if, and without collisions only if,
   they are adjacent.
   */
  lemma WindowHoldsIffAdjacent(env: Env, seed: string, i: int, j: int)
    ensures var accepted := Acceptable(SeededNonces(env, seed, j), env.digest(SeedInput(seed, i)));
            (-1 <= i - j <= 1 ==> accepted)
            && (CollisionFree(env, seed, {i, j - 1, j, j + 1}) && accepted ==> -1 <= i - j <= 1)
  {
    SeedInputInjective(seed, i, j - 1);
    SeedInputInjective(seed, i, j);
    SeedInputInjective(seed, i, j + 1);
  }

  /** A node accepts another's current challenge if, and without collisions only if, the interval ids are adjacent. */
  lemma AcceptsIffAdjacent(env: Env, issuer: ChallengeNonces, a: int, env': Env, acceptor: ChallengeNonces, b: int)
    requires SameCluster(env, env') && RefreshedAt(env, issuer, a) && RefreshedAt(env', acceptor, b)
    ensures Adjacent(env, a, b) ==> Acceptable(acceptor, issuer.currentChallengeNonce)
    ensures CollisionFree(env, env.challengeSeed.value, ComparedIds(env, a, b))
            ==> (Acceptable(acceptor, issuer.currentChallengeNonce) <==> Adjacent(env, a, b))
  {
    WindowHoldsIffAdjacent(env, env.challengeSeed.value, IntervalId(env, a), IntervalId(env, b));
  }

  lemma IntervalIdShift(env: Env, a: int, k: int)
    requires env.Valid()
    ensures IntervalId(env, a + k * env.period) == IntervalId(env, a) + k
  {
    var p := env.period;
    var q := a / p;
    assert p * (q + k) == p * q + k * p;
    assert p * q <= a < p * q + p;
    BigInt.QuotientIs(a + k * p, p, q + k);
  }

  lemma WithinPeriodIsAdjacent(env: Env, a: int, b: int)
    requires env.Valid() && -env.period <= a - b <= env.period
    ensures Adjacent(env, a, b)
  {
    var p := env.period;
    IntervalIdShift(env, b, 1);
    IntervalIdShift(env, b, -1);
    BigInt.QuotientMonotone(a, b + p, p);
    BigInt.QuotientMonotone(b - p, a, p);
  }

  lemma WindowsAgree(env: Env, one: ChallengeNonces, a: int, env': Env, other: ChallengeNonces, b: int)
    requires SameCluster(env, env') && RefreshedAt(env, one, a) && RefreshedAt(env', other, b)
    requires -env.period <= a - b <= env.period
    ensures Acceptable(other, one.currentChallengeNonce) && Acceptable(one, other.currentChallengeNonce)
  {
    WithinPeriodIsAdjacent(env, a, b);
    AcceptsIffAdjacent(env, one, a, env', other, b);
    AcceptsIffAdjacent(env', other, b, env, one, a);
  }

  /** Last refreshes at most one period apart: each node accepts the other's current challenge. */
  lemma ClusterAgreement(env: Env, h: History, events: seq<Event>, env': Env, h': History, events': seq<Event>)
    requires SameCluster(env, env') && LastRefresh(events).Some? && LastRefresh(events').Some?
    requires -env.period <= LastRefresh(events).value - LastRefresh(events').value <= env.period
    ensures Acceptable(RunEvents(env', h', events').state.nonces,
                       RunEvents(env, h, events).state.nonces.currentChallengeNonce)
    ensures Acceptable(RunEvents(env, h, events).state.nonces,
                       RunEvents(env', h', events').state.nonces.currentChallengeNonce)
  {
    WindowFollowsClock(env, h, events);
    WindowFollowsClock(env', h', events');
    WindowsAgree(env, RunEvents(env, h, events).state.nonces, LastRefresh(events).value,
                 env', RunEvents(env', h', events').state.nonces, LastRefresh(events').value);
  }

  /** In particular at any instant of a shared clock at which neither node's refresh is overdue, whatever the phases. */
  lemma AgreementAtEveryInstant(env: Env, h: History, events: seq<Event>, env': Env, h': History, events': seq<Event>,
                                instant: int)
    requires SameCluster(env, env') && LastRefresh(events).Some? && LastRefresh(events').Some?
    requires instant - env.period < LastRefresh(events).value <= instant
    requires instant - env.period < LastRefresh(events').value <= instant
    ensures Acceptable(RunEvents(env', h', events').state.nonces,
                       RunEvents(env, h, events).state.nonces.currentChallengeNonce)
  {
    ClusterAgreement(env, h, events, env', h', events');
  }

  ghost predicate AlwaysAdjacent(env: Env, drift: nat)
    requires env.Valid()
  {
    forall a, b: int :: b - a == drift ==> Adjacent(env, a, b)
  }

  lemma BeyondPeriodIsApart(env: Env, drift: nat)
    requires env.Valid() && drift > env.period
    ensures !Adjacent(env, env.period - 1, env.period - 1 + drift)
    ensures !Adjacent(env, env.period - 1 + drift, env.period - 1)
  {
    IntervalIdShift(env, 0, 2);
    BigInt.QuotientIs(env.period - 1, env.period, 0);
    BigInt.QuotientMonotone(2 * env.period, env.period - 1 + drift, env.period);
  }

  /** One period is exactly the drift that every pair of readings tolerates. */
  lemma PeriodIsTheBound(env: Env, drift: nat)
    requires env.Valid()
    ensures AlwaysAdjacent(env, drift) <==> drift <= env.period
  {
    if drift <= env.period {
      forall a, b: int | b - a == drift ensures Adjacent(env, a, b) {
        WithinPeriodIsAdjacent(env, a, b);
      }
    } else {
      BeyondPeriodIsApart(env, drift);
    }
  }

  /** Two nodes over any runs: acceptance is decided by the readings of their last refreshes. */
  lemma NodesAcceptIffAdjacent(env: Env, h: History, events: seq<Event>, env': Env, h': History, events': seq<Event>)
    requires SameCluster(env, env') && LastRefresh(events).Some? && LastRefresh(events').Some?
    requires CollisionFree(env, env.challengeSeed.value,
                           ComparedIds(env, LastRefresh(events).value, LastRefresh(events').value))
    ensures Acceptable(RunEvents(env', h', events').state.nonces,
                       RunEvents(env, h, events).state.nonces.currentChallengeNonce)
       <==> Adjacent(env, LastRefresh(events).value, LastRefresh(events').value)
  {
    WindowFollowsClock(env, h, events);
    WindowFollowsClock(env', h', events');
    AcceptsIffAdjacent(env, RunEvents(env, h, events).state.nonces, LastRefresh(events).value,
                       env', RunEvents(env', h', events').state.nonces, LastRefresh(events').value);
  }

  /**
   Beyond it the refusal is real: of two nodes whose last refreshes read `period - 1` and a drift of
   more than one period later, neither accepts the other's challenge, if the digest does not
   collide on the texts compared.
   */
  lemma RefusedBeyondPeriod(env: Env, h: History, events: seq<Event>, env': Env, h': History, events': seq<Event>,
                            drift: nat)
    requires SameCluster(env, env') && drift > env.period
    requires LastRefresh(events) == Some(env.period - 1) && LastRefresh(events') == Some(env.period - 1 + drift)
    requires CollisionFree(env, env.challengeSeed.value,
                           ComparedIds(env, LastRefresh(events).value, LastRefresh(events').value))
    requires CollisionFree(env', env'.challengeSeed.value,
                           ComparedIds(env', LastRefresh(events').value, LastRefresh(events).value))
    ensures !Acceptable(RunEvents(env', h', events').state.nonces,
                        RunEvents(env, h, events).state.nonces.currentChallengeNonce)
    ensures !Acceptable(RunEvents(env, h, events).state.nonces,
                        RunEvents(env', h', events').state.nonces.currentChallengeNonce)
  {
    NodesAcceptIffAdjacent(env, h, events, env', h', events');
    NodesAcceptIffAdjacent(env', h', events', env, h, events);
    BeyondPeriodIsApart(env, drift);
  }

  // ---------------------------------------------------------------- one seeded node over time

  lemma PeriodsApart(env: Env, a: int, b: int, k: nat)
    requires env.Valid() && b == a + k * env.period
    ensures Adjacent(env, a, b) <==> k <= 1
  {
    IntervalIdShift(env, a, k);
  }

  /**
   Refreshes exactly one period apart: a seeded challenge survives one refresh, and without
   collisions is refused from the second on, as in the unseeded case.
   */
  lemma SeededLifetime(env: Env, h: History, pre: seq<Event>, post: seq<Event>, k: nat)
    requires env.Valid() && env.challengeSeed.Some? && LastRefresh(pre).Some?
    requires LastRefresh(pre + post) == Some(LastRefresh(pre).value + k * env.period)
    requires CollisionFree(env, env.challengeSeed.value,
                           ComparedIds(env, LastRefresh(pre).value, LastRefresh(pre + post).value))
    ensures var issued := RunEvents(env, h, pre).state.nonces.currentChallengeNonce;
            var window := RunEvents(env, h, pre + post).state.nonces;
            Acceptable(window, issued) <==> k <= 1
  {
    NodesAcceptIffAdjacent(env, h, pre, env, h, pre + post);
    PeriodsApart(env, LastRefresh(pre).value, LastRefresh(pre + post).value, k);
  }

  /** A client may take its challenge from one node and hand its solution to another. */
  lemma SolveHereAcceptThere(env: Env, h: History, events: seq<Event>, env': Env, h': History, events': seq<Event>,
                             requestData: string, nonce: Nonce)
    requires SameCluster(env, env') && LastRefresh(events).Some? && LastRefresh(events').Some?
    requires -env.period <= LastRefresh(events).value - LastRefresh(events').value <= env.period
    requires var issuer, acceptor := RunEvents(env, h, events).state, RunEvents(env', h', events').state;
             IsHexString(Print(issuer.difficulty.current)) &&
             Qualifies(env.digest, Print(issuer.difficulty.current), issuer.nonces.currentChallengeNonce, requestData,
                       nonce)
             && !JsMap.Has(acceptor.cache, nonce) && acceptor.difficulty.current >= issuer.difficulty.current
    ensures var issuer, acceptor := RunEvents(env, h, events).state, RunEvents(env', h', events').state;
            Verdict(env', acceptor, Proof(issuer.nonces.currentChallengeNonce, nonce, requestData)) == Ok(())
  {
    ClusterAgreement(env, h, events, env', h', events');
    FoundNonceIsAccepted(env, RunEvents(env, h, events).state, env', RunEvents(env', h', events').state, requestData,
                         nonce);
  }
}
