/**
 Registration as a protocol over whole runs. Accepting a request is one atomic step; the upsert
 it starts lands later, in any order relative to other upserts, or is lost.
 */
module RegistrationRuns {
  import opened Wrappers
  import opened JsMap
  import opened ProofOfWork
  import opened RegistrationManager
  import PowState
  import DifficultyRange
  import opened ManagerRuns

  datatype Server = Server(env: PowState.Env, stringify: RegistrationData -> string)

  /** `landed` and `lost` remember what became of the upserts. */
  datatype Registry =
    Registry(terms: Option<string>, pow: History, table: map<string, Option<string>>, pending: seq<RegistrationData>,
             landed: seq<RegistrationData>, lost: seq<RegistrationData>)

  datatype Step =
    | Register(now: int, request: Request)
    | Land(at: nat)
    | Lose(at: nat)
    | UpdateTerms(text: string)
    | Refresh(event: Event)

  function Open(server: Server, first: Nonce, clock: int): Registry {
    Registry(None, Begin(server.env, first, clock), map[], [], [], [])
  }

  function Admits(server: Server, s: Registry, request: Request): bool {
    Admission(server.env, server.stringify, s.terms, s.pow.state, request).Ok?
  }

  function Without<T>(items: seq<T>, at: nat): seq<T>
    requires at < |items|
  {
    items[..at] + items[at + 1..]
  }

  /** What a step means to the proof-of-work manager. */
  function PowEvents(s: Registry, server: Server, step: Step): seq<Event> {
    match step
    case Register(now, request) =>
      if s.terms == request.data.termsOfServiceHash then [Verify(now, ProofOf(server.stringify, request))] else []
    case Refresh(event) => if event.Verify? then [] else [event]
    case _ => []
  }

  function After(server: Server, s: Registry, step: Step): Registry
    requires server.env.Valid()
  {
    var t := s.(pow := RunEvents(server.env, s.pow, PowEvents(s, server, step)));
    match step
    case Register(_, request) => if Admits(server, s, request) then t.(pending := s.pending + [request.data]) else t
    case Land(at) =>
      if at >= |s.pending| then t
      else t.(pending := Without(s.pending, at), landed := s.landed + [s.pending[at]],
              table := s.table[s.pending[at].did := s.pending[at].termsOfServiceHash])
    case Lose(at) =>
      if at >= |s.pending| then t
      else t.(pending := Without(s.pending, at), lost := s.lost + [s.pending[at]])
    case UpdateTerms(text) => t.(terms := Some(server.env.digest(text)))
    case Refresh(_) => t
  }

  function RunSteps(server: Server, s: Registry, steps: seq<Step>): Registry
    requires server.env.Valid()
  {
    if steps == [] then s
    else After(server, RunSteps(server, s, steps[..|steps| - 1]), steps[|steps| - 1])
  }

  /** The objects of a server with a store are in the state `s`. */
  ghost predicate Matches(manager: RegistrationManager, server: Server, s: Registry)
    reads manager, manager.proofOfWorkManager, manager.registrationStore
  {
    && manager.proofOfWorkManager != null && manager.proofOfWorkManager.Valid() && manager.registrationStore != null
    && manager.proofOfWorkManager.env == server.env && manager.digest == server.env.digest
    && manager.stringify == server.stringify && manager.termsOfServiceHash == s.terms
    && manager.proofOfWorkManager.Model() == s.pow.state && manager.registrationStore.registeredTenants == s.table
  }

  lemma OneEvent(env: PowState.Env, h: History, event: Event)
    requires env.Valid()
    ensures RunEvents(env, h, [event]) == ManagerRuns.After(env, h, event)
  {
    assert [event][..0] == [];
  }

  /** A request handled to completion with no other in between is a `Register` followed by its `Land`. */
  method PerformRequest(manager: RegistrationManager, ghost server: Server, ghost s: Registry, now: int,
                        request: Request)
    returns (r: Result<(), Rejection>)
    requires Matches(manager, server, s) && s.pending == []
    modifies manager.proofOfWorkManager, manager.registrationStore
    ensures r.Ok? <==> Admits(server, s, request)
    ensures Matches(manager, server, After(server, After(server, s, Register(now, request)), Land(0)))
  {
    if manager.termsOfServiceHash == request.data.termsOfServiceHash {
      OneEvent(server.env, s.pow, Verify(now, ProofOf(server.stringify, request)));
    }
    r := manager.HandleRegistrationRequest(now, request);
    ghost var between := After(server, s, Register(now, request));
    assert between.pending == if r.Ok? then [request.data] else [];
  }

  /** An upsert that lands writes its row and no other; one that fails is gone and has done nothing. */
  lemma PendingUpsertLandsOrIsLost(server: Server, s: Registry, at: nat)
    requires server.env.Valid() && at < |s.pending|
    ensures var t := After(server, s, Lose(at));
            multiset(t.pending) + multiset{s.pending[at]} == multiset(s.pending)
            && t == s.(pending := t.pending, lost := s.lost + [s.pending[at]])
    ensures var t, data := After(server, s, Land(at)), s.pending[at];
            multiset(t.pending) + multiset{data} == multiset(s.pending)
            && t == s.(pending := t.pending, landed := s.landed + [data],
                       table := s.table[data.did := data.termsOfServiceHash])
  {
    assert s.pending == s.pending[..at] + [s.pending[at]] + s.pending[at + 1..];
  }

  predicate IsActive(s: Registry, tenant: string) {
    tenant in s.table && s.terms.Some? && s.table[tenant] == s.terms
  }

  /** New terms and the tenant gate on the objects are those of the run. */
  method PerformTerms(manager: RegistrationManager, ghost server: Server, ghost s: Registry, text: string,
                      tenant: string)
    returns (result: ActiveTenantCheckResult)
    requires Matches(manager, server, s)
    modifies manager
    ensures Matches(manager, server, After(server, s, UpdateTerms(text)))
    ensures result == Active <==> IsActive(After(server, s, UpdateTerms(text)), tenant)
  {
    manager.UpdateTermsOfService(text);
    result := manager.IsActiveTenant(tenant);
  }

  /** Step `k` of the run is a request that is admitted in the state it meets. */
  predicate AdmittedAt(server: Server, s: Registry, steps: seq<Step>, k: nat)
    requires server.env.Valid()
  {
    k < |steps| && steps[k].Register? && Admits(server, RunSteps(server, s, steps[..k]), steps[k].request)
  }

  /** The registration data of the admitted requests, in order. */
  function Submitted(server: Server, s: Registry, steps: seq<Step>): seq<RegistrationData>
    requires server.env.Valid()
  {
    if steps == [] then []
    else
      var n := |steps| - 1;
      Submitted(server, s, steps[..n]) + if AdmittedAt(server, s, steps, n) then [steps[n].request.data] else []
  }

  /** All the proof-of-work events of a run. */
  function AllPowEvents(server: Server, s: Registry, steps: seq<Step>): seq<Event>
    requires server.env.Valid()
  {
    if steps == [] then []
    else
      var n := |steps| - 1;
      AllPowEvents(server, s, steps[..n]) + PowEvents(RunSteps(server, s, steps[..n]), server, steps[n])
  }

  // ---------------------------------------------------------------- what every run keeps

  lemma StepRunsPowEvents(server: Server, s: Registry, step: Step)
    requires server.env.Valid()
    ensures After(server, s, step).pow == RunEvents(server.env, s.pow, PowEvents(s, server, step))
  {
  }

  /** The proof-of-work part of a run is a run of the manager, so everything proved of those holds here. */
  lemma {:induction false} PowPartIsManagerRun(server: Server, s: Registry, steps: seq<Step>)
    requires server.env.Valid()
    ensures RunSteps(server, s, steps).pow == RunEvents(server.env, s.pow, AllPowEvents(server, s, steps))
  {
    if steps != [] {
      var n := |steps| - 1;
      var before := RunSteps(server, s, steps[..n]);
      PowPartIsManagerRun(server, s, steps[..n]);
      StepRunsPowEvents(server, before, steps[n]);
      RunEventsConcat(server.env, s.pow, AllPowEvents(server, s, steps[..n]), PowEvents(before, server, steps[n]));
    }
  }

  function Upserts(s: Registry): multiset<RegistrationData> {
    multiset(s.pending) + multiset(s.landed) + multiset(s.lost)
  }

  /** The upsert a step starts, if any. */
  function Started(server: Server, s: Registry, step: Step): seq<RegistrationData> {
    if step.Register? && Admits(server, s, step.request) then [step.request.data] else []
  }

  /** Landing or losing a pending upsert only moves it. */
  lemma MoveKeepsUpserts(s: Registry, at: nat)
    requires at < |s.pending|
    ensures Upserts(s.(pending := Without(s.pending, at), landed := s.landed + [s.pending[at]])) == Upserts(s)
    ensures Upserts(s.(pending := Without(s.pending, at), lost := s.lost + [s.pending[at]])) == Upserts(s)
  {
    assert s.pending == s.pending[..at] + [s.pending[at]] + s.pending[at + 1..];
  }

  lemma StepKeepsUpserts(server: Server, s: Registry, step: Step)
    requires server.env.Valid()
    ensures Upserts(After(server, s, step)) == Upserts(s) + multiset(Started(server, s, step))
  {
    if step.Register? && Admits(server, s, step.request) {
      assert After(server, s, step).pending == s.pending + [step.request.data];
    } else if (step.Land? || step.Lose?) && step.at < |s.pending| {
      MoveKeepsUpserts(s, step.at);
    }
  }

  /** The proof of an admitted request, and no other, is logged with the clock reading of its step. */
  lemma StepLogs(server: Server, s: Registry, step: Step)
    requires server.env.Valid()
    ensures After(server, s, step).pow.log
         == if step.Register? && Admits(server, s, step.request)
            then s.pow.log + [Entry(step.request.responseNonce, step.now)] else s.pow.log
  {
    var events := PowEvents(s, server, step);
    if events != [] {
      OneEvent(server.env, s.pow, events[0]);
    }
  }

  /**
   Conservation: every admitted request's upsert is pending, landed or lost, exactly once, and
   nothing else is; and the manager logged exactly one proof for each.
   */
  lemma {:induction false} UpsertsAreConserved(server: Server, s: Registry, steps: seq<Step>)
    requires server.env.Valid()
    ensures Upserts(RunSteps(server, s, steps)) == Upserts(s) + multiset(Submitted(server, s, steps))
    ensures |RunSteps(server, s, steps).pow.log| == |s.pow.log| + |Submitted(server, s, steps)|
  {
    if steps != [] {
      var n := |steps| - 1;
      UpsertsAreConserved(server, s, steps[..n]);
      StepKeepsUpserts(server, RunSteps(server, s, steps[..n]), steps[n]);
      StepLogs(server, RunSteps(server, s, steps[..n]), steps[n]);
    }
  }

  lemma {:induction false} SubmittedWereAdmitted(server: Server, s: Registry, steps: seq<Step>, d: RegistrationData)
    requires server.env.Valid() && d in Submitted(server, s, steps)
    ensures exists k: nat :: AdmittedAt(server, s, steps, k) && steps[k].request.data == d
  {
    var n := |steps| - 1;
    if d in Submitted(server, s, steps[..n]) {
      SubmittedWereAdmitted(server, s, steps[..n], d);
      var k: nat :| AdmittedAt(server, s, steps[..n], k) && steps[..n][k].request.data == d;
      assert steps[..n][..k] == steps[..k];
      assert AdmittedAt(server, s, steps, k);
    } else {
      assert AdmittedAt(server, s, steps, n);
    }
  }

  /** The last landed registration of a tenant. */
  function LatestLanded(landed: seq<RegistrationData>, did: string): Option<Option<string>> {
    if landed == [] then None
    else if landed[|landed| - 1].did == did then Some(landed[|landed| - 1].termsOfServiceHash)
    else LatestLanded(landed[..|landed| - 1], did)
  }

  ghost predicate TableIsLatest(s: Registry) {
    forall did :: LatestLanded(s.landed, did) == if did in s.table then Some(s.table[did]) else None
  }

  lemma LandKeepsTable(s: Registry, t: Registry, d: RegistrationData)
    requires TableIsLatest(s)
    requires t.landed == s.landed + [d] && t.table == s.table[d.did := d.termsOfServiceHash]
    ensures TableIsLatest(t)
  {
    assert t.landed[..|t.landed| - 1] == s.landed;
    forall did ensures LatestLanded(t.landed, did) == if did in t.table then Some(t.table[did]) else None {
      assert LatestLanded(s.landed, did) == if did in s.table then Some(s.table[did]) else None;
    }
  }

  lemma {:induction false} RunsKeepTable(server: Server, s: Registry, steps: seq<Step>)
    requires server.env.Valid() && TableIsLatest(s)
    ensures TableIsLatest(RunSteps(server, s, steps))
  {
    if steps != [] {
      var n := |steps| - 1;
      RunsKeepTable(server, s, steps[..n]);
      var before := RunSteps(server, s, steps[..n]);
      if steps[n].Land? && steps[n].at < |before.pending| {
        LandKeepsTable(before, After(server, before, steps[n]), before.pending[steps[n].at]);
      }
    }
  }

  lemma {:induction false} LatestLandedIsLanded(landed: seq<RegistrationData>, did: string)
    ensures LatestLanded(landed, did).Some? ==> RegistrationData(did, LatestLanded(landed, did).value) in landed
    ensures LatestLanded(landed, did).None? ==> forall i :: 0 <= i < |landed| ==> landed[i].did != did
  {
    if landed != [] {
      var n := |landed| - 1;
      LatestLandedIsLanded(landed[..n], did);
      assert landed == landed[..n] + [landed[n]];
    }
  }

  // ---------------------------------------------------------------- accounting

  /** A stored row carries the data of an admitted request. */
  lemma RowsWereSubmitted(server: Server, first: Nonce, clock: int, steps: seq<Step>, did: string)
    requires server.env.Valid() && did in RunSteps(server, Open(server, first, clock), steps).table
    ensures var s := Open(server, first, clock);
            RegistrationData(did, RunSteps(server, s, steps).table[did]) in Submitted(server, s, steps)
  {
    var s := Open(server, first, clock);
    var t := RunSteps(server, s, steps);
    RunsKeepTable(server, s, steps);
    LatestLandedIsLanded(t.landed, did);
    UpsertsAreConserved(server, s, steps);
    assert RegistrationData(did, t.table[did]) in Upserts(t);
  }

  lemma {:induction false} PowEventsOfPrefix(server: Server, s: Registry, steps: seq<Step>, k: nat)
    requires server.env.Valid() && k <= |steps|
    ensures AllPowEvents(server, s, steps[..k]) <= AllPowEvents(server, s, steps)
    decreases |steps|
  {
    if k == |steps| {
      assert steps[..k] == steps;
    } else {
      PowEventsOfPrefix(server, s, steps[..|steps| - 1], k);
      assert steps[..|steps| - 1][..k] == steps[..k];
    }
  }

  /** What held at the step that admitted a request. */
  lemma WhenAdmitted(server: Server, first: Nonce, clock: int, steps: seq<Step>, k: nat)
    requires server.env.Valid() && AdmittedAt(server, Open(server, first, clock), steps, k)
    requires Timely(clock, AllPowEvents(server, Open(server, first, clock), steps))
    ensures var met, request := RunSteps(server, Open(server, first, clock), steps[..k]), steps[k].request;
            && met.terms == request.data.termsOfServiceHash
            && HashValue(server.env.digest, ProofOf(server.stringify, request)) <= met.pow.state.difficulty.current
            && (DifficultyRange.Contained(server.env.config)
                ==> met.pow.state.difficulty.current <= server.env.config.initial)
  {
    var s := Open(server, first, clock);
    PowPartIsManagerRun(server, s, steps[..k]);
    PowEventsOfPrefix(server, s, steps, k);
    DifficultyStaysInRange(server.env, first, clock, AllPowEvents(server, s, steps[..k]));
  }

  /**
   Every stored row goes back to a step that admitted it: at that step its terms hash was the
   current one, and its proof hashed to no more than the threshold of that moment, which in a
   contained configuration is no more than the initial one.
   */
  lemma RowsWereAdmitted(server: Server, first: Nonce, clock: int, steps: seq<Step>, did: string)
    requires server.env.Valid() && Timely(clock, AllPowEvents(server, Open(server, first, clock), steps))
    requires did in RunSteps(server, Open(server, first, clock), steps).table
    ensures var s := Open(server, first, clock);
            exists k: nat :: AdmittedAt(server, s, steps, k) &&
              var met, request := RunSteps(server, s, steps[..k]), steps[k].request;
              && request.data == RegistrationData(did, RunSteps(server, s, steps).table[did])
              && met.terms == request.data.termsOfServiceHash
              && HashValue(server.env.digest, ProofOf(server.stringify, request)) <= met.pow.state.difficulty.current
              && (DifficultyRange.Contained(server.env.config)
                  ==> met.pow.state.difficulty.current <= server.env.config.initial)
  {
    var s := Open(server, first, clock);
    var d := RegistrationData(did, RunSteps(server, s, steps).table[did]);
    RowsWereSubmitted(server, first, clock, steps, did);
    SubmittedWereAdmitted(server, s, steps, d);
    var k: nat :| AdmittedAt(server, s, steps, k) && steps[k].request.data == d;
    WhenAdmitted(server, first, clock, steps, k);
  }

  lemma {:induction false} TenantsAtMostLandings(server: Server, s: Registry, steps: seq<Step>)
    requires server.env.Valid() && |s.table| <= |s.landed|
    ensures var t := RunSteps(server, s, steps); |t.table| <= |t.landed|
  {
    if steps != [] {
      TenantsAtMostLandings(server, s, steps[..|steps| - 1]);
    }
  }

  /** Registered tenants and pending upserts together never outnumber the accepted proofs. */
  lemma NoMoreTenantsThanProofs(server: Server, first: Nonce, clock: int, steps: seq<Step>)
    requires server.env.Valid()
    ensures var t := RunSteps(server, Open(server, first, clock), steps);
            |t.table| + |t.pending| <= |t.pow.log|
  {
    var s := Open(server, first, clock);
    UpsertsAreConserved(server, s, steps);
    TenantsAtMostLandings(server, s, steps);
    var t := RunSteps(server, s, steps);
    assert |Upserts(t)| == |t.pending| + |t.landed| + |t.lost|;
    assert Upserts(t) == multiset(Submitted(server, s, steps));
  }

  // ---------------------------------------------------------------- one puzzle, one registration

  lemma AdmittedWindow(server: Server, first: Nonce, clock: int, steps: seq<Step>, k: nat)
    requires server.env.Valid() && AdmittedAt(server, Open(server, first, clock), steps, k)
    ensures |steps[k].request.challengeNonce| == |steps[k].request.responseNonce| == NONCE_LENGTH
  {
    var s := Open(server, first, clock);
    PowPartIsManagerRun(server, s, steps[..k]);
    WindowNoncesAreFull(server.env, first, clock, AllPowEvents(server, s, steps[..k]), steps[k].request.challengeNonce);
  }

  /** Two admitted requests that hash the same text are the same request, if the JSON text determines its data. */
  lemma AdmittedInputsDecode(server: Server, first: Nonce, clock: int, steps: seq<Step>, i: nat, j: nat)
    requires server.env.Valid()
    requires AdmittedAt(server, Open(server, first, clock), steps, i)
    requires AdmittedAt(server, Open(server, first, clock), steps, j)
    requires HashInput(ProofOf(server.stringify, steps[i].request))
             == HashInput(ProofOf(server.stringify, steps[j].request))
    requires server.stringify(steps[i].request.data) == server.stringify(steps[j].request.data)
         ==> steps[i].request.data == steps[j].request.data
    ensures steps[i].request == steps[j].request
  {
    AdmittedWindow(server, first, clock, steps, i);
    AdmittedWindow(server, first, clock, steps, j);
    HashInputDecodes(ProofOf(server.stringify, steps[i].request), ProofOf(server.stringify, steps[j].request));
  }

  /** The log only grows, at its end. */
  lemma {:induction false} LogGrows(server: Server, s: Registry, steps: seq<Step>)
    requires server.env.Valid()
    ensures s.pow.log <= RunSteps(server, s, steps).pow.log
  {
    if steps != [] {
      var n := |steps| - 1;
      LogGrows(server, s, steps[..n]);
      StepLogs(server, RunSteps(server, s, steps[..n]), steps[n]);
    }
  }

  lemma RunStepsSnoc(server: Server, s: Registry, steps: seq<Step>, step: Step)
    requires server.env.Valid()
    ensures RunSteps(server, s, steps + [step]) == After(server, RunSteps(server, s, steps), step)
  {
    assert (steps + [step])[..|steps + [step]| - 1] == steps;
  }

  lemma {:induction false} RunStepsConcat(server: Server, s: Registry, pre: seq<Step>, post: seq<Step>)
    requires server.env.Valid()
    ensures RunSteps(server, s, pre + post) == RunSteps(server, RunSteps(server, s, pre), post)
  {
    if post == [] {
      assert pre + post == pre;
    } else {
      var init, last := post[..|post| - 1], post[|post| - 1];
      RunStepsConcat(server, s, pre, init);
      assert post == init + [last] && pre + post == (pre + init) + [last];
      RunStepsSnoc(server, s, pre + init, last);
      RunStepsSnoc(server, RunSteps(server, s, pre), init, last);
    }
  }

  lemma AdmissionIsLogged(server: Server, s: Registry, steps: seq<Step>, k: nat)
    requires server.env.Valid() && AdmittedAt(server, s, steps, k)
    ensures RunSteps(server, s, steps[..k + 1]).pow.log
         == RunSteps(server, s, steps[..k]).pow.log + [Entry(steps[k].request.responseNonce, steps[k].now)]
  {
    assert steps[..k + 1][..k] == steps[..k];
    StepLogs(server, RunSteps(server, s, steps[..k]), steps[k]);
  }

  /** Where the log grows by an admission of step `k`, seen from the end of the run. */
  lemma AdmissionInLog(server: Server, s: Registry, steps: seq<Step>, k: nat)
    requires server.env.Valid() && AdmittedAt(server, s, steps, k)
    ensures var at, log := |RunSteps(server, s, steps[..k]).pow.log|, RunSteps(server, s, steps).pow.log;
            at < |log| && log[at] == Entry(steps[k].request.responseNonce, steps[k].now)
  {
    AdmissionIsLogged(server, s, steps, k);
    assert steps == steps[..k + 1] + steps[k + 1..];
    RunStepsConcat(server, s, steps[..k + 1], steps[k + 1..]);
    LogGrows(server, RunSteps(server, s, steps[..k + 1]), steps[k + 1..]);
  }

  lemma AdmissionsInOrder(server: Server, s: Registry, steps: seq<Step>, i: nat, j: nat)
    requires server.env.Valid() && i < j <= |steps| && AdmittedAt(server, s, steps, i)
    ensures |RunSteps(server, s, steps[..i]).pow.log| < |RunSteps(server, s, steps[..j]).pow.log|
  {
    assert steps[..j][..i] == steps[..i];
    AdmissionInLog(server, s, steps[..j], i);
  }

  /**
   One response nonce registers at most once a minute: two admissions that share it lie more
   than 60,000 ms apart.
   */
  lemma AdmissionsWithOneNonceAreApart(server: Server, first: Nonce, clock: int, steps: seq<Step>, i: nat, j: nat)
    requires server.env.Valid() && Timely(clock, AllPowEvents(server, Open(server, first, clock), steps))
    requires i < j && AdmittedAt(server, Open(server, first, clock), steps, i)
    requires AdmittedAt(server, Open(server, first, clock), steps, j)
    requires steps[i].request.responseNonce == steps[j].request.responseNonce
    ensures steps[j].now - steps[i].now > 60_000
  {
    var s := Open(server, first, clock);
    AdmissionInLog(server, s, steps, i);
    AdmissionInLog(server, s, steps, j);
    AdmissionsInOrder(server, s, steps, i, j);
    PowPartIsManagerRun(server, s, steps);
    ReplaySafety(server.env, first, clock, AllPowEvents(server, s, steps),
                 |RunSteps(server, s, steps[..i]).pow.log|, |RunSteps(server, s, steps[..j]).pow.log|);
  }

  /** So does one solved puzzle: two admissions that hash the same text share their response nonce. */
  lemma AdmissionsOfOnePuzzleAreApart(server: Server, first: Nonce, clock: int, steps: seq<Step>, i: nat, j: nat)
    requires server.env.Valid() && Timely(clock, AllPowEvents(server, Open(server, first, clock), steps))
    requires i < j && AdmittedAt(server, Open(server, first, clock), steps, i)
    requires AdmittedAt(server, Open(server, first, clock), steps, j)
    requires HashInput(ProofOf(server.stringify, steps[i].request))
             == HashInput(ProofOf(server.stringify, steps[j].request))
    ensures steps[j].now - steps[i].now > 60_000
  {
    AdmittedWindow(server, first, clock, steps, i);
    AdmittedWindow(server, first, clock, steps, j);
    HashInputDecodes(ProofOf(server.stringify, steps[i].request), ProofOf(server.stringify, steps[j].request));
    AdmissionsWithOneNonceAreApart(server, first, clock, steps, i, j);
  }

  // ---------------------------------------------------------------- the tenant gate

  lemma {:induction false} NoLaterEntry(landed: seq<RegistrationData>, i: nat, did: string)
    requires i < |landed| && landed[i].did == did && forall j :: i < j < |landed| ==> landed[j].did != did
    ensures LatestLanded(landed, did) == Some(landed[i].termsOfServiceHash)
  {
    if i < |landed| - 1 {
      NoLaterEntry(landed[..|landed| - 1], i, did);
    }
  }

  lemma {:induction false} FindLatest(landed: seq<RegistrationData>, did: string) returns (i: nat)
    requires LatestLanded(landed, did).Some?
    ensures i < |landed| && landed[i] == RegistrationData(did, LatestLanded(landed, did).value)
    ensures forall j :: i < j < |landed| ==> landed[j].did != did
  {
    i := |landed| - 1;
    if landed[i].did != did {
      i := FindLatest(landed[..i], did);
    }
  }

  lemma LatestIsCurrentIff(t: Registry, tenant: string)
    requires TableIsLatest(t)
    ensures IsActive(t, tenant) <==>
              t.terms.Some? && exists i :: 0 <= i < |t.landed| && t.landed[i] == RegistrationData(tenant, t.terms)
                                           && forall j :: i < j < |t.landed| ==> t.landed[j].did != tenant
  {
    assert LatestLanded(t.landed, tenant) == if tenant in t.table then Some(t.table[tenant]) else None;
    if IsActive(t, tenant) {
      var i := FindLatest(t.landed, tenant);
    } else if i: nat :| i < |t.landed| && t.landed[i].did == tenant
                        && forall j :: i < j < |t.landed| ==> t.landed[j].did != tenant {
      NoLaterEntry(t.landed, i, tenant);
    }
  }

  /** A tenant is active exactly when its last landed registration carries the hash of the current terms. */
  lemma ActiveIffLatestLandedIsCurrent(server: Server, first: Nonce, clock: int, steps: seq<Step>, tenant: string)
    requires server.env.Valid()
    ensures var t := RunSteps(server, Open(server, first, clock), steps);
            IsActive(t, tenant) <==>
              t.terms.Some? && exists i :: 0 <= i < |t.landed| && t.landed[i] == RegistrationData(tenant, t.terms)
                                           && forall j :: i < j < |t.landed| ==> t.landed[j].did != tenant
  {
    var s := Open(server, first, clock);
    RunsKeepTable(server, s, steps);
    var t := RunSteps(server, s, steps);
    LatestIsCurrentIff(t, tenant);
  }

  /**
   A server with a store and no terms admits a request without a hash, for undefined equals
   undefined. The row it leaves holds a null, and the gate stays shut to its tenant, before terms
   are set and after.
   */
  lemma WithoutTermsTheGateStaysShut(server: Server, s: Registry, now: int, request: Request, text: string)
    requires server.env.Valid() && s.terms == None && s.pending == [] && request.data.termsOfServiceHash == None
    requires PowState.Verdict(server.env, s.pow.state, ProofOf(server.stringify, request)).Ok?
    ensures Admits(server, s, request)
    ensures var t := After(server, After(server, s, Register(now, request)), Land(0));
            request.data.did in t.table && t.table[request.data.did] == None
            && !IsActive(t, request.data.did) && !IsActive(After(server, t, UpdateTerms(text)), request.data.did)
  {
    assert After(server, s, Register(now, request)).pending == [request.data];
  }

  /** No row and no pending upsert carries `hash`, except through requests admitted in `steps`. */
  ghost predicate OnlyFrom(server: Server, s: Registry, hash: Option<string>, submitted: seq<RegistrationData>) {
    (forall did :: did in s.table && s.table[did] == hash ==> RegistrationData(did, hash) in submitted) &&
    (forall d :: d in s.pending && d.termsOfServiceHash == hash ==> d in submitted)
  }

  lemma StepKeepsOnlyFrom(server: Server, s: Registry, hash: Option<string>, submitted: seq<RegistrationData>,
                          step: Step)
    requires server.env.Valid() && OnlyFrom(server, s, hash, submitted)
    ensures OnlyFrom(server, After(server, s, step), hash, submitted + Started(server, s, step))
  {
    if (step.Land? || step.Lose?) && step.at < |s.pending| {
      assert s.pending[step.at] in s.pending;
      assert forall d :: d in Without(s.pending, step.at) ==> d in s.pending;
    }
  }

  lemma {:induction false} NewHashOnlyFromAdmitted(server: Server, s: Registry, hash: Option<string>, steps: seq<Step>)
    requires server.env.Valid() && OnlyFrom(server, s, hash, [])
    ensures OnlyFrom(server, RunSteps(server, s, steps), hash, Submitted(server, s, steps))
  {
    if steps != [] {
      var n := |steps| - 1;
      NewHashOnlyFromAdmitted(server, s, hash, steps[..n]);
      StepKeepsOnlyFrom(server, RunSteps(server, s, steps[..n]), hash, Submitted(server, s, steps[..n]), steps[n]);
    }
  }

  lemma {:induction false} TermsStay(server: Server, s: Registry, steps: seq<Step>)
    requires server.env.Valid() && forall i :: 0 <= i < |steps| ==> !steps[i].UpdateTerms?
    ensures RunSteps(server, s, steps).terms == s.terms
  {
    if steps != [] {
      TermsStay(server, s, steps[..|steps| - 1]);
    }
  }

  predicate TermsUntouched(steps: seq<Step>) {
    forall i :: 0 <= i < |steps| ==> !steps[i].UpdateTerms?
  }

  /** A request of the tenant's own that carries the hash is admitted in the run. */
  ghost predicate AdmittedAnew(server: Server, s: Registry, steps: seq<Step>, data: RegistrationData)
    requires server.env.Valid()
  {
    exists k: nat :: AdmittedAt(server, s, steps, k) && steps[k].request.data == data
  }

  /** After the change to `text`, and while those terms stay, nobody is active without a new admission of its own. */
  ghost predicate ShutsEveryoneOut(server: Server, s: Registry, text: string)
    requires server.env.Valid()
  {
    forall steps: seq<Step>, tenant: string ::
      TermsUntouched(steps) && IsActive(RunSteps(server, After(server, s, UpdateTerms(text)), steps), tenant)
      ==> AdmittedAnew(server, After(server, s, UpdateTerms(text)), steps,
                       RegistrationData(tenant, Some(server.env.digest(text))))
  }

  /** Neither a row nor a pending upsert carries the hash. */
  predicate HashIsUnused(s: Registry, hash: Option<string>) {
    (forall did :: did in s.table ==> s.table[did] != hash) &&
    (forall i :: 0 <= i < |s.pending| ==> s.pending[i].termsOfServiceHash != hash)
  }

  lemma NewTermsShutOut(server: Server, s: Registry, text: string, steps: seq<Step>, tenant: string)
    requires server.env.Valid() && HashIsUnused(s, Some(server.env.digest(text))) && TermsUntouched(steps)
    requires IsActive(RunSteps(server, After(server, s, UpdateTerms(text)), steps), tenant)
    ensures AdmittedAnew(server, After(server, s, UpdateTerms(text)), steps,
                         RegistrationData(tenant, Some(server.env.digest(text))))
  {
    var hash := Some(server.env.digest(text));
    var changed := After(server, s, UpdateTerms(text));
    assert OnlyFrom(server, changed, hash, []);
    NewHashOnlyFromAdmitted(server, changed, hash, steps);
    TermsStay(server, changed, steps);
    SubmittedWereAdmitted(server, changed, steps, RegistrationData(tenant, hash));
  }

  lemma OneActiveRun(server: Server, s: Registry, text: string, steps: seq<Step>, tenant: string)
    requires server.env.Valid() && TermsUntouched(steps)
    requires IsActive(RunSteps(server, After(server, s, UpdateTerms(text)), steps), tenant)
    requires ShutsEveryoneOut(server, s, text)
    ensures AdmittedAnew(server, After(server, s, UpdateTerms(text)), steps,
                         RegistrationData(tenant, Some(server.env.digest(text))))
  {
  }

  lemma ActiveAnyway(server: Server, s: Registry, text: string, steps: seq<Step>, tenant: string)
    requires server.env.Valid() && TermsUntouched(steps) && forall i :: 0 <= i < |steps| ==> !steps[i].Register?
    requires IsActive(RunSteps(server, After(server, s, UpdateTerms(text)), steps), tenant)
    ensures !ShutsEveryoneOut(server, s, text)
  {
    var changed := After(server, s, UpdateTerms(text));
    var data := RegistrationData(tenant, Some(server.env.digest(text)));
    assert !AdmittedAnew(server, changed, steps, data) by {
      forall k: nat ensures !AdmittedAt(server, changed, steps, k) {}
    }
    if ShutsEveryoneOut(server, s, text) {
      OneActiveRun(server, s, text, steps, tenant);
      assert false;
    }
  }

  lemma RunOneStep(server: Server, s: Registry, step: Step)
    requires server.env.Valid()
    ensures RunSteps(server, s, [step]) == After(server, s, step)
  {
    assert [step][..0] == [];
  }

  /**
   In every state, changing the terms shuts every tenant out, until a new admission of its own,
   if and only if no row and no pending upsert carries the hash of the new terms. With no steps
   after the change this says that nobody is active at once.
   */
  lemma NewTermsShutEveryoneOut(server: Server, s: Registry, text: string)
    requires server.env.Valid()
    ensures ShutsEveryoneOut(server, s, text) <==> HashIsUnused(s, Some(server.env.digest(text)))
  {
    var hash, changed := Some(server.env.digest(text)), After(server, s, UpdateTerms(text));
    if did :| did in s.table && s.table[did] == hash {
      ActiveAnyway(server, s, text, [], did);
    } else if i :| 0 <= i < |s.pending| && s.pending[i].termsOfServiceHash == hash {
      RunOneStep(server, changed, Land(i));
      ActiveAnyway(server, s, text, [Land(i)], s.pending[i].did);
    } else {
      forall steps: seq<Step>, tenant: string
        | TermsUntouched(steps) && IsActive(RunSteps(server, changed, steps), tenant)
        ensures AdmittedAnew(server, changed, steps, RegistrationData(tenant, hash))
      {
        NewTermsShutOut(server, s, text, steps, tenant);
      }
    }
  }

  function TermsThereAndBack(now: int, request: Request, text: string, other: string): seq<Step> {
    [] + [UpdateTerms(text)] + [Register(now, request)] + [UpdateTerms(other)] + [UpdateTerms(text)]
  }

  /**
   From the start: a registration admitted under the terms `text` and still on its way while the
   terms go to `other` and back. Its tenant is not active then, and becomes so when the upsert
   lands, with no further request.
   */
  lemma PendingUpsertActivatesLater(server: Server, first: Nonce, clock: int, now: int, request: Request,
                                    text: string, other: string)
    requires server.env.Valid()
    requires AdmittedAt(server, Open(server, first, clock), TermsThereAndBack(now, request, text, other), 1)
    ensures var s, steps := Open(server, first, clock), TermsThereAndBack(now, request, text, other);
            !IsActive(RunSteps(server, s, steps), request.data.did)
            && IsActive(RunSteps(server, s, steps + [Land(0)]), request.data.did)
  {
    var s, steps := Open(server, first, clock), TermsThereAndBack(now, request, text, other);
    var a, b := [] + [UpdateTerms(text)], [] + [UpdateTerms(text)] + [Register(now, request)];
    assert steps[..1] == a && steps[1] == Register(now, request);
    RunStepsSnoc(server, s, [], UpdateTerms(text));
    RunStepsSnoc(server, s, a, Register(now, request));
    RunStepsSnoc(server, s, b, UpdateTerms(other));
    RunStepsSnoc(server, s, b + [UpdateTerms(other)], UpdateTerms(text));
    RunStepsSnoc(server, s, steps, Land(0));
    var t := RunSteps(server, s, steps);
    assert t.table == map[] && t.pending == [request.data] && t.terms == Some(server.env.digest(text));
    assert request.data.termsOfServiceHash == Some(server.env.digest(text));
  }
}
