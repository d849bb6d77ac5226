/** Tenant registration: the store, the manager, and the tenant gate, call by call. */
module RegistrationManager {
  import opened Wrappers
  import JsMap
  import opened ProofOfWork
  import PowState
  import ProofOfWorkManager

  /** A request may leave the hash out; its row then holds a null. */
  datatype RegistrationData = RegistrationData(did: string, termsOfServiceHash: Option<string>)

  datatype Request = Request(challengeNonce: string, responseNonce: string, data: RegistrationData)

  datatype Rejection = InvalidOrOutdatedTermsOfServiceHash | ProofRejected(reason: PowState.Failure)

  datatype ActiveTenantCheckResult = Active | NotRegistered | TermsOutdated

  /** The proof a request stands for; `stringify` is the JSON text of the registration data. */
  function ProofOf(stringify: RegistrationData -> string, request: Request): Proof {
    Proof(request.challengeNonce, request.responseNonce, stringify(request.data))
  }

  function Admission(env: PowState.Env, stringify: RegistrationData -> string, terms: Option<string>,
                     pow: PowState.State, request: Request): Result<(), Rejection> {
    if terms != request.data.termsOfServiceHash then Err(InvalidOrOutdatedTermsOfServiceHash)
    else match PowState.Verdict(env, pow, ProofOf(stringify, request))
      case Ok(_) => Ok(())
      case Err(reason) => Err(ProofRejected(reason))
  }

  class RegistrationStore {
    /** The table, from its primary key `did` to the terms-of-service hash. */
    var registeredTenants: map<string, Option<string>>

    constructor ()
      ensures registeredTenants == map[]
    {
      registeredTenants := map[];
    }

    method InsertOrUpdateTenantRegistration(data: RegistrationData)
      modifies this
      ensures registeredTenants == old(registeredTenants)[data.did := data.termsOfServiceHash]
    {
      if data.did !in registeredTenants {
        registeredTenants := registeredTenants + map[data.did := data.termsOfServiceHash];
      } else {
        registeredTenants := registeredTenants[data.did := data.termsOfServiceHash];
      }
    }

    method GetTenantRegistration(tenantDid: string) returns (result: Option<RegistrationData>)
      ensures result.Some? <==> tenantDid in registeredTenants
      ensures result.Some? ==> result.value == RegistrationData(tenantDid, registeredTenants[tenantDid])
    {
      if tenantDid in registeredTenants {
        result := Some(RegistrationData(tenantDid, registeredTenants[tenantDid]));
      } else {
        result := None;
      }
    }
  }

  class RegistrationManager {
    const digest: string -> Digest
    const stringify: RegistrationData -> string

    var proofOfWorkManager: ProofOfWorkManager.ProofOfWorkManager?
    var registrationStore: RegistrationStore?
    var termsOfServiceHash: Option<string>
    var termsOfService: Option<string>

    constructor (digest: string -> Digest, stringify: RegistrationData -> string,
                 pow: ProofOfWorkManager.ProofOfWorkManager?, store: RegistrationStore?)
      ensures this.digest == digest && this.stringify == stringify
      ensures proofOfWorkManager == pow && registrationStore == store
      ensures termsOfServiceHash == None && termsOfService == None
    {
      this.digest, this.stringify := digest, stringify;
      proofOfWorkManager, registrationStore := pow, store;
      termsOfServiceHash, termsOfService := None, None;
    }

    method UpdateTermsOfService(terms: string)
      modifies this`termsOfServiceHash, this`termsOfService
      ensures termsOfService == Some(terms) && termsOfServiceHash == Some(digest(terms))
    {
      var hash := HashAsHexString(digest, [terms]);
      assert [terms][..0] == [] && Concat([terms]) == "" + terms == terms;
      termsOfServiceHash := Some(hash);
      termsOfService := Some(terms);
    }

    /** One request handled to completion. The registration route exists only where there is a store. */
    method HandleRegistrationRequest(now: int, request: Request) returns (r: Result<(), Rejection>)
      requires proofOfWorkManager != null && proofOfWorkManager.Valid() && registrationStore != null
      modifies proofOfWorkManager`proofOfWorkOfLastMinute, registrationStore
      ensures proofOfWorkManager.Valid()
      ensures r == Admission(proofOfWorkManager.env, stringify, termsOfServiceHash, old(proofOfWorkManager.Model()),
                             request)
      ensures proofOfWorkManager.Model()
           == if termsOfServiceHash != request.data.termsOfServiceHash then old(proofOfWorkManager.Model())
              else PowState.Verified(proofOfWorkManager.env, old(proofOfWorkManager.Model()), now,
                                     ProofOf(stringify, request))
      ensures r == Err(InvalidOrOutdatedTermsOfServiceHash) <==> request.data.termsOfServiceHash != termsOfServiceHash
      ensures request.data.termsOfServiceHash == termsOfServiceHash ==>
                var proof := Proof(request.challengeNonce, request.responseNonce, stringify(request.data));
                var verdict := PowState.Verdict(proofOfWorkManager.env, old(proofOfWorkManager.Model()), proof);
                r == (if verdict.Ok? then Ok(()) else Err(ProofRejected(verdict.error)))
      ensures proofOfWorkManager.proofOfWorkOfLastMinute
           == if r.Ok? then old(proofOfWorkManager.proofOfWorkOfLastMinute) + [JsMap.Entry(request.responseNonce, now)]
              else old(proofOfWorkManager.proofOfWorkOfLastMinute)
      ensures registrationStore.registeredTenants
           == if r.Ok?
              then old(registrationStore.registeredTenants)[request.data.did := request.data.termsOfServiceHash]
              else old(registrationStore.registeredTenants)
    {
      if request.data.termsOfServiceHash != termsOfServiceHash {
        return Err(InvalidOrOutdatedTermsOfServiceHash);
      }
      var proof := Proof(request.challengeNonce, request.responseNonce, stringify(request.data));
      var verdict := proofOfWorkManager.VerifyProofOfWork(now, proof);
      if verdict.Err? {
        return Err(ProofRejected(verdict.error));
      }
      registrationStore.InsertOrUpdateTenantRegistration(request.data);
      return Ok(());
    }

    /** The tenant gate. Without a store it is open for all. */
    method IsActiveTenant(tenant: string) returns (result: ActiveTenantCheckResult)
      ensures registrationStore == null ==> result == Active
      ensures registrationStore != null ==>
                (result == NotRegistered <==> tenant !in registrationStore.registeredTenants)
                && (result == Active <==> tenant in registrationStore.registeredTenants
                                          && termsOfServiceHash.Some?
                                          && registrationStore.registeredTenants[tenant] == termsOfServiceHash)
    {
      if registrationStore == null {
        return Active;
      }
      var tenantRegistration := registrationStore.GetTenantRegistration(tenant);
      if tenantRegistration.None? {
        return NotRegistered;
      }
      // a null from the table differs from every hash, and from the undefined hash of a manager without terms
      var hash := tenantRegistration.value.termsOfServiceHash;
      if hash.None? || hash != termsOfServiceHash {
        return TermsOutdated;
      }
      return Active;
    }
  }
}
