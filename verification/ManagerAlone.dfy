/** A manager left alone: what it measures once no more proofs are accepted, and when its difficulty is back. */
module ManagerAlone {
  import opened Wrappers
  import opened Difficulty
  import opened DifficultyRange
  import opened DifficultyRecovery
  import opened DifficultyReturn
  import opened ProofOfWork
  import opened PowState
  import opened ManagerRuns

  function Evaluations(events: seq<Event>): nat {
    if events == [] then 0
    else Evaluations(events[..|events| - 1]) + if events[|events| - 1].Evaluate? then 1 else 0
  }

  /** Nothing is accepted after the reading `t`, and evaluations come more than a minute after it. */
  ghost predicate LeftAlone(env: Env, h: History, events: seq<Event>, t: int)
    requires env.Valid()
  {
    && Timely(h.clock, events) && RunEvents(env, h, events).log == h.log
    && (forall i :: 0 <= i < |h.log| ==> h.log[i].value <= t)
    && (forall i :: 0 <= i < |events| && events[i].Evaluate? ==> events[i].now > t + 60_000)
  }

  lemma {:induction false} LogOnlyGrows(env: Env, h: History, events: seq<Event>)
    requires env.Valid()
    ensures h.log <= RunEvents(env, h, events).log
  {
    if events != [] {
      LogOnlyGrows(env, h, events[..|events| - 1]);
    }
  }

  lemma LeftAloneBefore(env: Env, h: History, events: seq<Event>, t: int)
    requires env.Valid() && events != [] && LeftAlone(env, h, events, t)
    ensures LeftAlone(env, h, events[..|events| - 1], t)
  {
    LogOnlyGrows(env, h, events[..|events| - 1]);
    assert RunEvents(env, h, events[..|events| - 1]).log <= RunEvents(env, h, events).log;
  }

  lemma SilentStep(env: Env, h: History, event: Event)
    requires env.Valid() && Inv(env, h) && h.clock <= event.now
    requires event.Evaluate? ==> forall i :: 0 <= i < |h.log| ==> h.log[i].value < event.now - 60_000
    ensures ManagerRuns.After(env, h, event).state.difficulty
         == if event.Evaluate? then Refresh(env.config, h.state.difficulty, 0) else h.state.difficulty
  {
    if event.Evaluate? {
      EvaluateInv(env, h, event.now);
      NothingRecent(h.log, event.now - ONE_MINUTE);
    }
  }

  lemma OneMoreSilence(cfg: Config, d: Difficulty, m: nat)
    requires cfg.Valid()
    ensures RunFrom(cfg, d, Silence(m + 1)) == Refresh(cfg, RunFrom(cfg, d, Silence(m)), 0)
  {
    assert Silence(m + 1) == Silence(m) + [0];
    RunSnoc(cfg, d, Silence(m), 0);
  }

  /** Every evaluation measures 0, and the controller goes through silence. */
  lemma {:induction false} LeftAloneMeasuresNothing(env: Env, h: History, events: seq<Event>, t: int)
    requires env.Valid() && Inv(env, h) && LeftAlone(env, h, events, t)
    ensures RunEvents(env, h, events).state.difficulty
         == RunFrom(env.config, h.state.difficulty, Silence(Evaluations(events)))
  {
    if events == [] {
      assert Silence(0) == [];
    } else {
      var init, last := events[..|events| - 1], events[|events| - 1];
      LeftAloneBefore(env, h, events, t);
      LeftAloneMeasuresNothing(env, h, init, t);
      RunsKeepInv(env, h, init);
      SilentStep(env, RunEvents(env, h, init), last);
      OneMoreSilence(env.config, h.state.difficulty, Evaluations(init));
      assert RunEvents(env, h, events) == ManagerRuns.After(env, RunEvents(env, h, init), last);
    }
  }

  /** After a hardening to `base` the manager is back exactly from the recovery time on, in evaluations. */
  lemma LeftAloneRecoversExactlyAt(env: Env, h: History, events: seq<Event>, t: int, base: int)
    requires env.Valid() && Inv(env, h) && LeftAlone(env, h, events, t)
    requires h.state.difficulty == Difficulty(base, None) && env.config.initial - base >= RecoverySpan(env.config)
    ensures RunEvents(env, h, events).state.difficulty.current == env.config.initial
       <==> Evaluations(events) >= RecoveryTime(env.config, base)
  {
    LeftAloneMeasuresNothing(env, h, events, t);
    RecoversExactlyAt(env.config, base, Silence(Evaluations(events)));
  }

  /**
   Where the configuration always comes back, every manager does once it is left alone: whatever
   its run so far, from some number of evaluations on its difficulty is the initial one.
   */
  lemma LeftAloneComesBack(env: Env, first: Nonce, clock: int, pre: seq<Event>) returns (n: nat)
    requires env.Valid() && Timely(clock, pre) && Damped(env.config)
    requires env.config.initial - Harden(env.config, env.config.initial, env.config.desired.Floor + 1)
               >= RecoverySpan(env.config)
             || env.config.initial * WholeMultiplier(env.config) < env.config.evaluationsPerMinute
    ensures forall post: seq<Event>, t: int ::
              LeftAlone(env, RunEvents(env, Begin(env, first, clock), pre), post, t) && Evaluations(post) >= n
              ==> RunEvents(env, RunEvents(env, Begin(env, first, clock), pre), post).state.difficulty.current
                    == env.config.initial
  {
    var h := RunEvents(env, Begin(env, first, clock), pre);
    RunsKeepInv(env, Begin(env, first, clock), pre);
    if env.config.initial * WholeMultiplier(env.config) < env.config.evaluationsPerMinute {
      TinyNeverMoves(env.config, h.counts);
    }
    n := BackWithin(env.config, h.counts);
    forall post: seq<Event>, t: int | LeftAlone(env, h, post, t) && Evaluations(post) >= n
      ensures RunEvents(env, h, post).state.difficulty.current == env.config.initial
    {
      LeftAloneMeasuresNothing(env, h, post, t);
    }
  }
}
