/** The staged authorization decision, internal/authz/pipeline.go. */
module Pipeline {
  import opened Common
  import opened Authz
  import opened Policy
  import opened Inventory
  import opened Challenge

  /** What a decision depends on besides the request, the inventory's answer and
      the validator's. `roles` is any role selector, None if there is none. */
  datatype Gate = Gate(
    requireChallenge: bool, allowUnauthenticated: bool,
    roles: Option<Identity -> string>, constraints: Option<StandardConstraints>)

  function RoleOf(g: Gate, id: Identity, rec: Record): string {
    if rec.role != "" then rec.role else if g.roles.Some? then g.roles.value(id) else ""
  }

  /** The inventory stages: None if the request gets past them. */
  function Turned(req: Request, inventory: Result<Record, Failure>): Option<Result<Decision, Failure>> {
    if req.operation.SimpleReenroll? && req.clientCert.None? then
      Some(Ok(Deny(NoClientCertificate)))
    else if inventory.Err? then Some(Err(inventory.error))
    else if !inventory.value.found then Some(Ok(Deny(NotInInventory)))
    else None
  }

  predicate ChallengeRequired(g: Gate, rec: Record) { g.requireChallenge || rec.requireChallenge }

  /** Whether the validator, if there is one, is asked at all. */
  predicate Consults(g: Gate, req: Request, inventory: Result<Record, Failure>) {
    Turned(req, inventory).None? && (ChallengeRequired(g, inventory.value) || req.challengePassword != "")
  }

  /** The code store after a request: a code may be spent whenever the validator is
      asked, whatever the later stages decide. */
  function Spent(g: Gate, codes: Codes, req: Request, inventory: Result<Record, Failure>, now: int): Codes {
    if Consults(g, req, inventory)
    then Validated(codes, ResolveIdentity(req), req.challengePassword, now).0 else codes
  }

  /** Authorize as a function. `answer` is what the validator says of the request's
      secret, None if no validator is configured. */
  function Decide(g: Gate, req: Request, inventory: Result<Record, Failure>, answer: Option<bool>)
    : Result<Decision, Failure>
  {
    var id := ResolveIdentity(req);
    var turned := Turned(req, inventory);
    if turned.Some? then turned.value
    else
      var rec := inventory.value;
      var required := ChallengeRequired(g, rec);
      var supplied := req.challengePassword != "";
      if required && answer.None? then Ok(Deny(NoChallengeValidator))
      else if (required || supplied) && answer.Some? && !answer.value then Ok(Deny(ChallengeFailed))
      else if !id.authenticated && !(supplied && answer.Some? && answer.value) && !g.allowUnauthenticated then
        Ok(Deny(Unauthenticated))
      else if RoleOf(g, id, rec) == "" then Ok(Deny(NoRole))
      else if g.constraints.None? then Ok(Deny(NoConstraintPolicy))
      else
        match Build(g.constraints.value, id, rec)
        case Err(e) => Ok(Deny(Unbuildable(e)))
        case Ok(c) => Ok(Decision(true, RoleOf(g, id, rec), c, Authorized))
  }

  predicate Allows(g: Gate, req: Request, inventory: Result<Record, Failure>, answer: Option<bool>) {
    Decide(g, req, inventory, answer).Ok? && Decide(g, req, inventory, answer).value.allow
  }

  /** What a request must have shown, all at once. */
  ghost predicate HasProof(g: Gate, req: Request, rec: Record, answer: Option<bool>) {
    && (req.operation.SimpleReenroll? ==> req.clientCert.Some?)
    && (g.requireChallenge || rec.requireChallenge ==> answer == Some(true))
    && (req.challengePassword != "" && answer.Some? ==> answer.value)
    && (req.clientCert.Some? || g.allowUnauthenticated ||
        (req.challengePassword != "" && answer.Some? && answer.value))
  }

  /** A request is allowed exactly when the inventory has the device, it has shown
      its proof, a role is found and its constraints can be built; then it is given
      just those. A supplied secret that the validator refuses is fatal even where
      none was required. */
  lemma AllowedExactlyWhen(g: Gate, req: Request, inventory: Result<Record, Failure>, answer: Option<bool>)
    ensures Allows(g, req, inventory, answer) <==>
            && inventory.Ok? && inventory.value.found && HasProof(g, req, inventory.value, answer)
            && (inventory.value.role != "" || (g.roles.Some? && g.roles.value(ResolveIdentity(req)) != ""))
            && g.constraints.Some? && Build(g.constraints.value, ResolveIdentity(req), inventory.value).Ok?
    ensures Allows(g, req, inventory, answer) ==>
              var d := Decide(g, req, inventory, answer).value;
              && d.role != ""
              && d.role == (if inventory.value.role != "" then inventory.value.role
                            else g.roles.value(ResolveIdentity(req)))
              && Ok(d.constraints) == Build(g.constraints.value, ResolveIdentity(req), inventory.value)
    ensures Decide(g, req, inventory, answer).Err? <==>
              inventory.Err? && (req.operation.SimpleReenroll? ==> req.clientCert.Some?)
  {
  }

  /** A challenge that either the broker or the device's own record requires cannot be
      avoided: not by a certificate, nor for want of a validator. */
  lemma RequiredChallengeCannotBeSkipped(g: Gate, req: Request, inventory: Result<Record, Failure>,
                                         answer: Option<bool>)
    requires inventory.Ok? && (g.requireChallenge || inventory.value.requireChallenge) && answer != Some(true)
    ensures !Allows(g, req, inventory, answer)
  {
    AllowedExactlyWhen(g, req, inventory, answer);
  }

  /** The validator is asked exactly for a device in the inventory that must show a
      secret or has sent one; where it is not asked its answer has no effect. */
  lemma ValidatorIsAskedExactlyWhen(g: Gate, req: Request, inventory: Result<Record, Failure>)
    ensures Consults(g, req, inventory) <==>
            && (req.operation.SimpleReenroll? ==> req.clientCert.Some?)
            && inventory.Ok? && inventory.value.found
            && (g.requireChallenge || inventory.value.requireChallenge || req.challengePassword != "")
    ensures !Consults(g, req, inventory) ==>
              forall a, b :: Decide(g, req, inventory, a) == Decide(g, req, inventory, b)
  {
  }

  /** A denial gives the reason that holds, and grants nothing. */
  lemma DenialsAreTruthful(g: Gate, req: Request, inventory: Result<Record, Failure>, answer: Option<bool>)
    requires Decide(g, req, inventory, answer).Ok? && !Allows(g, req, inventory, answer)
    ensures var d, id := Decide(g, req, inventory, answer).value, ResolveIdentity(req);
            && d.role == "" && d.constraints == CertConstraints("", [], [], [], 0, false)
            && match d.reason
               case NoClientCertificate => req.operation.SimpleReenroll? && req.clientCert.None?
               case NotInInventory => inventory.Ok? && !inventory.value.found
               case NoChallengeValidator => answer.None?
               case ChallengeFailed => answer == Some(false)
               case Unauthenticated => req.clientCert.None? && (req.challengePassword == "" || answer.None?)
               case NoRole => inventory.Ok? && inventory.value.role == ""
               case NoConstraintPolicy => g.constraints.None?
               case Unbuildable(e) =>
                 inventory.Ok? && g.constraints.Some? && Build(g.constraints.value, id, inventory.value) == Err(e)
               case Authorized => false
  {
  }

  /** `strict` differs from `lax` only in demanding more proof. */
  ghost predicate Stricter(strict: Gate, lax: Gate) {
    && strict.roles == lax.roles && strict.constraints == lax.constraints
    && (lax.requireChallenge ==> strict.requireChallenge)
    && (strict.allowUnauthenticated ==> lax.allowUnauthenticated)
  }

  /** Tightening the gate is monotone, for any validator, one that accepts an empty
      secret included: it never allows what was denied, and whatever it still allows
      keeps its role and constraints. */
  lemma TighteningIsMonotone(strict: Gate, lax: Gate, req: Request, inventory: Result<Record, Failure>,
                             answer: Option<bool>)
    requires Stricter(strict, lax) && Allows(strict, req, inventory, answer)
    ensures Decide(lax, req, inventory, answer) == Decide(strict, req, inventory, answer)
  {
  }

  /** Requiring a challenge is not authentication: with a validator that accepts the
      empty secret, a request with neither certificate nor secret is still denied. */
  lemma EmptySecretProvesNothing(g: Gate, req: Request, inventory: Result<Record, Failure>, answer: Option<bool>)
    requires !g.allowUnauthenticated && req.clientCert.None? && req.challengePassword == ""
    ensures !Allows(g, req, inventory, answer)
  {
  }

  // ---- The authorizer ----

  datatype InventoryBackend =
    | NoInventory                               // also when none is configured
    | File(file: FileInventory)
    | Backend(answer: Identity -> Result<Record, Failure>)  // any other, which may fail

  datatype Validator =
    | NoValidator
    | AcceptAll
    | Static(secret: string)
    | OneTime(store: MemoryStore)

  datatype Pipeline = Pipeline(inventory: InventoryBackend, challenge: Validator, gate: Gate)

  function StoreOf(v: Validator): set<object> {
    if v.OneTime? then {v.store} else {}
  }

  /** The validator's answer, in its present state. */
  function AnswerOf(v: Validator, id: Identity, secret: string, now: int): Option<bool>
    reads StoreOf(v)
  {
    match v
    case NoValidator => None
    case AcceptAll => Some(true)
    case Static(s) => Some(secret == s)
    case OneTime(store) => Some(Validated(store.codes, id, secret, now).1)
  }

  /** `found` is an answer the inventory gives for `id`. */
  ghost predicate InventoryAnswers(backend: InventoryBackend, id: Identity, found: Result<Record, Failure>)
    reads if backend.File? then {backend.file} else {}
  {
    match backend
    case NoInventory => found == Ok(Record(true, [], false, ""))
    case File(f) => found.Ok? && IsFirstMatch(f.devices, id, found.value)
    case Backend(answer) => found == answer(id)
  }

  /** No inventory permits every device, and adds nothing to what the policy says. */
  lemma NoInventoryPermitsAll(id: Identity, found: Result<Record, Failure>)
    ensures InventoryAnswers(NoInventory, id, found) <==> found == Ok(Record(true, [], false, ""))
  {
  }

  method ValidateSecret(v: Validator, id: Identity, secret: string, now: int) returns (ok: bool)
    requires !v.NoValidator?
    modifies StoreOf(v)
    ensures v.AcceptAll? ==> ok
    ensures v.Static? ==> (ok <==> secret == v.secret)
    ensures Some(ok) == old(AnswerOf(v, id, secret, now))
    ensures v.OneTime? ==> v.store.codes == Validated(old(v.store.codes), id, secret, now).0
  {
    match v {
      case AcceptAll => ok := true;
      case Static(s) => ok := secret == s;
      case OneTime(store) => ok := store.Validate(id, secret, now);
    }
  }

  method LookupRecord(backend: InventoryBackend, id: Identity) returns (found: Result<Record, Failure>)
    ensures InventoryAnswers(backend, id, found)
  {
    match backend {
      case NoInventory => found := Ok(Record(true, [], false, ""));
      case File(f) =>
        var rec := f.Lookup(id);
        found := Ok(rec);
      case Backend(answer) => found := answer(id);
    }
  }

  /** Authorize, stage by stage. The ghost result is the inventory's answer. */
  method Authorize(p: Pipeline, req: Request, now: int)
    returns (r: Result<Decision, Failure>, ghost found: Result<Record, Failure>)
    modifies StoreOf(p.challenge)
    ensures InventoryAnswers(p.inventory, ResolveIdentity(req), found)
            || (req.operation.SimpleReenroll? && req.clientCert.None?)
    ensures var answer := old(AnswerOf(p.challenge, ResolveIdentity(req), req.challengePassword, now));
            r == Decide(p.gate, req, found, answer)
    ensures p.challenge.OneTime? ==>
              p.challenge.store.codes == Spent(p.gate, old(p.challenge.store.codes), req, found, now)
  {
    hide Build, InventoryAnswers, TryKeys, CandidateKeys;
    var id := ResolveIdentity(req);
    found := Err(InventoryFailure);
    if req.operation.SimpleReenroll? && !id.authenticated {
      return Ok(Deny(NoClientCertificate)), found;
    }
    var inventory := LookupRecord(p.inventory, id);
    found := inventory;
    if inventory.Err? {
      return Err(inventory.error), found;
    }
    var rec := inventory.value;
    if !rec.found {
      return Ok(Deny(NotInInventory)), found;
    }
    var challengeValidated := false;
    if p.gate.requireChallenge || rec.requireChallenge {
      if p.challenge.NoValidator? {
        return Ok(Deny(NoChallengeValidator)), found;
      }
      var ok := ValidateSecret(p.challenge, id, req.challengePassword, now);
      if !ok {
        return Ok(Deny(ChallengeFailed)), found;
      }
      challengeValidated := req.challengePassword != "";
    } else if req.challengePassword != "" && !p.challenge.NoValidator? {
      var ok := ValidateSecret(p.challenge, id, req.challengePassword, now);
      if !ok {
        return Ok(Deny(ChallengeFailed)), found;
      }
      challengeValidated := true;
    }
    if !id.authenticated && !challengeValidated && !p.gate.allowUnauthenticated {
      return Ok(Deny(Unauthenticated)), found;
    }
    var role := rec.role;
    if role == "" && p.gate.roles.Some? {
      role := p.gate.roles.value(id);
    }
    if role == "" {
      return Ok(Deny(NoRole)), found;
    }
    if p.gate.constraints.None? {
      return Ok(Deny(NoConstraintPolicy)), found;
    }
    var cons := Build(p.gate.constraints.value, id, rec);
    if cons.Err? {
      return Ok(Deny(Unbuildable(cons.error))), found;
    }
    return Ok(Decision(true, role, cons.value, Authorized)), found;
  }
}
