/** What the broker owes to devices in order: given a proper answer from the issuer,
    no stage of any path turns them away. It joins the pipeline, the policy and the
    check of internal/authz with both handlers. */
module Service {
  import opened Common
  import opened Names
  import opened Authz
  import opened Policy
  import opened VerifyIssued
  import opened Challenge
  import opened Pipeline
  import opened Issuance
  import EstHandler
  import ScepMessage
  import ScepHandler
  import Replay

  /** `cert` is a proper answer for `cn` and `names`: that common name up to case, if
      there is one, no other names, and a lifetime within bounds. */
  ghost predicate Conforms(b: StandardConstraints, cn: string, names: seq<string>, cert: Cert) {
    && (cn != "" ==> SameUpToCase(cert.commonName, cn))
    && (forall n | n in cert.dnsNames :: n in names || n == cn != "")
    && cert.ips == [] && cert.uris == []
    && (b.maxValidity > 0 ==>
          cert.notAfter - cert.notBefore <= b.maxValidity && b.maxValidity + TTL_SLACK <= MAX_DURATION)
  }

  /** The inventory knows the device, by `found`, and there is a role for it. */
  ghost predicate HasRole(g: Gate, req: Request, inventory: Result<Record, Failure>) {
    && inventory.Ok? && inventory.value.found
    && (inventory.value.role != "" || (g.roles.Some? && g.roles.value(ResolveIdentity(req)) != ""))
  }

  lemma NamesAreCovered(names: seq<string>, authority: seq<string>)
    requires forall n | n in names :: n in authority
    ensures Covered(names, authority)
    ensures forall n | n in authority :: MatchedByAny(authority, n)
  {
    CoveredByItself(authority);
  }

  // ---- Renewal ----

  /** `csr` asks for names of `prev` only. */
  predicate AsksForItsOwn(prev: Cert, csr: CSR) {
    && (csr.commonName != "" ==> csr.commonName in NamesOf(prev))
    && (forall n | n in csr.dnsNames :: n in NamesOf(prev))
    && csr.ips == [] && csr.uris == []
  }

  /** The names such a request gets. */
  function NamesKept(prev: Cert, csr: CSR): seq<string> {
    if csr.dnsNames == [] then prev.dnsNames else csr.dnsNames
  }

  /** A known device, with its proof shown, a role, and a name to keep or to ask for. */
  ghost predicate InOrder(g: Gate, prev: Cert, req: Request, inventory: Result<Record, Failure>, answer: Option<bool>) {
    && req.clientCert == Some(prev) && req.csr.Some? && AsksForItsOwn(prev, req.csr.value)
    && (prev.commonName != "" || NamesKept(prev, req.csr.value) != [])
    && HasRole(g, req, inventory) && HasProof(g, req, inventory.value, answer)
    && g.constraints.Some? && g.constraints.value.mode.IdentityMode?
  }

  /** The policy builds for such a request and the check passes a proper answer: the
      stages agree on what a device may keep. */
  lemma OwnNamesPassEveryStage(g: Gate, prev: Cert, req: Request, inventory: Result<Record, Failure>,
                               answer: Option<bool>, cert: Cert)
    requires InOrder(g, prev, req, inventory, answer)
    requires Conforms(g.constraints.value, prev.commonName, NamesKept(prev, req.csr.value), cert)
    ensures Allows(g, req, inventory, answer)
    ensures Accepted(cert, Decide(g, req, inventory, answer).value.constraints)
  {
    hide GlobMatch, Build, Accepted, EqualFold, SameUpToCase, HasProof, Decide;
    var b, id, csr := g.constraints.value, ResolveIdentity(req), req.csr.value;
    NamesAreCovered(csr.dnsNames, NamesOf(prev));
    assert Authority(b, id, inventory.value) == NamesOf(prev);
    BuildsExactlyWhen(b, id, inventory.value);
    AllowedExactlyWhen(g, req, inventory, answer);
    BuildStaysWithinAuthority(b, id, inventory.value);
    BuildGrants(b, id, inventory.value);
    FoldMeaning(cert.commonName, prev.commonName);
    HonestCertificateIsAccepted(cert, Build(b, id, inventory.value).value);
  }

  /** EST renews every device in order, given a proper answer. */
  lemma EstNeverTurnsAwayADeviceInOrder(g: Gate, r: EstHandler.EstRequest, w: World, keyDecodes: bool)
    requires r.op.SimpleReenroll? && r.peer.Peer? && r.peer.chainsToDevice
    requires InOrder(g, r.peer.leaf, Request(SimpleReenroll, Some(r.peer.leaf), Some(r.csr), r.challenge, r.estLabel),
                     w.inventory, w.answer)
    requires w.issuer.Issued? && w.replyBuilds
    requires Conforms(g.constraints.value, r.peer.leaf.commonName, NamesKept(r.peer.leaf, r.csr), w.issuer.cert)
    ensures EstHandler.Answered(g, r, w, keyDecodes).reply == EstHandler.Released(w.issuer.cert)
  {
    hide Accepted, Conforms, InOrder, Allows, Decide, EstHandler.Answered;
    OwnNamesPassEveryStage(g, r.peer.leaf, EstHandler.AuthzRequest(r, Some(r.peer.leaf)),
                           w.inventory, w.answer, w.issuer.cert);
    EstHandler.DeliveredExactlyWhen(g, r, w, keyDecodes);
  }

  /** So does SCEP, for a fresh renewal request. */
  lemma ScepNeverTurnsAwayADeviceInOrder(cfg: ScepHandler.Config, seen: map<string, int>, r: ScepMessage.ScepRequest,
                                         w: World)
    requires r.attributes.messageType == ScepMessage.RenewalReq && r.signerAuthenticated
    requires Replay.Checked(cfg.replay, seen, ScepHandler.ReplayKey(cfg, r.attributes), w.now).1
    requires InOrder(cfg.gate, r.signer, Request(SimpleReenroll, Some(r.signer), Some(r.csr), r.challenge, ""),
                     w.inventory, w.answer)
    requires w.issuer.Issued? && w.replyBuilds
    requires Conforms(cfg.gate.constraints.value, r.signer.commonName, NamesKept(r.signer, r.csr), w.issuer.cert)
    ensures ScepHandler.Answered(cfg, seen, r, w).1.reply ==
            ScepHandler.Success(r.attributes.transactionID, r.attributes.senderNonce, w.issuer.cert, r.signer)
  {
    hide Accepted, Conforms, InOrder, Allows, Decide, ScepHandler.Answered, Replay.Checked;
    OwnNamesPassEveryStage(cfg.gate, r.signer, ScepMessage.AuthzRequest(r), w.inventory, w.answer, w.issuer.cert);
    ScepHandler.DeliveredExactlyWhen(cfg, seen, r, w);
  }

  // ---- First enrollment on a secret ----

  /** A known device without a certificate brings a secret the validator accepts, and
      asks for names its record allows, at least one, and for no address or URI. */
  ghost predicate Newcomer(g: Gate, req: Request, inventory: Result<Record, Failure>, answer: Option<bool>) {
    && !req.operation.SimpleReenroll? && req.clientCert.None? && req.csr.Some?
    && req.challengePassword != "" && answer == Some(true)
    && HasRole(g, req, inventory)
    && g.constraints.Some? && (g.constraints.value.mode.IdentityMode? || g.constraints.value.mode.AllowlistMode?)
    && var (csr, allowed) := (req.csr.value, inventory.value.allowedDNSNames);
       && (csr.commonName != "" ==> MatchedByAny(allowed, csr.commonName)) && Covered(csr.dnsNames, allowed)
       && (csr.commonName != "" || csr.dnsNames != []) && csr.ips == [] && csr.uris == []
  }

  /** The secret is proof enough, whatever the gate requires, and what the record allows
      is what the check lets through. */
  lemma NewcomersPassEveryStage(g: Gate, req: Request, inventory: Result<Record, Failure>, answer: Option<bool>,
                                cert: Cert)
    requires Newcomer(g, req, inventory, answer)
    requires Conforms(g.constraints.value, req.csr.value.commonName, req.csr.value.dnsNames, cert)
    ensures Allows(g, req, inventory, answer)
    ensures Accepted(cert, Decide(g, req, inventory, answer).value.constraints)
  {
    hide GlobMatch, Build, Accepted, EqualFold, SameUpToCase, Decide;
    var b, id, csr := g.constraints.value, ResolveIdentity(req), req.csr.value;
    assert csr.dnsNames != [] ==> csr.dnsNames[0] in csr.dnsNames;
    assert inventory.value.allowedDNSNames != [];
    BuildsExactlyWhen(b, id, inventory.value);
    AllowedExactlyWhen(g, req, inventory, answer);
    BuildStaysWithinAuthority(b, id, inventory.value);
    BuildGrants(b, id, inventory.value);
    FoldMeaning(cert.commonName, csr.commonName);
    HonestCertificateIsAccepted(cert, Build(b, id, inventory.value).value);
  }

  /** EST enrolls every newcomer, given a proper answer. */
  lemma EstEnrollsEveryNewcomer(g: Gate, r: EstHandler.EstRequest, w: World, keyDecodes: bool)
    requires r.op.SimpleEnroll? || (r.op.ServerKeyGen? && keyDecodes)
    requires r.peer.Peer? ==> !r.peer.chainsToBootstrap && !r.peer.chainsToDevice
    requires Newcomer(g, Request(r.op, None, Some(r.csr), r.challenge, r.estLabel), w.inventory, w.answer)
    requires w.issuer.Issued? && w.replyBuilds
    requires Conforms(g.constraints.value, r.csr.commonName, r.csr.dnsNames, w.issuer.cert)
    ensures EstHandler.Answered(g, r, w, keyDecodes).reply == EstHandler.Released(w.issuer.cert)
  {
    hide Accepted, Conforms, Newcomer, Allows, Decide, EstHandler.Answered;
    NewcomersPassEveryStage(g, EstHandler.AuthzRequest(r, None), w.inventory, w.answer, w.issuer.cert);
    EstHandler.DeliveredExactlyWhen(g, r, w, keyDecodes);
  }

  /** So does SCEP, for a fresh first request. */
  lemma ScepEnrollsEveryNewcomer(cfg: ScepHandler.Config, seen: map<string, int>, r: ScepMessage.ScepRequest, w: World)
    requires r.attributes.messageType == ScepMessage.PKCSReq && !r.signerAuthenticated
    requires Replay.Checked(cfg.replay, seen, ScepHandler.ReplayKey(cfg, r.attributes), w.now).1
    requires Newcomer(cfg.gate, Request(SimpleEnroll, None, Some(r.csr), r.challenge, ""), w.inventory, w.answer)
    requires w.issuer.Issued? && w.replyBuilds
    requires Conforms(cfg.gate.constraints.value, r.csr.commonName, r.csr.dnsNames, w.issuer.cert)
    ensures ScepHandler.Answered(cfg, seen, r, w).1.reply ==
            ScepHandler.Success(r.attributes.transactionID, r.attributes.senderNonce, w.issuer.cert, r.signer)
  {
    hide Accepted, Conforms, Newcomer, Allows, Decide, ScepHandler.Answered, Replay.Checked;
    NewcomersPassEveryStage(cfg.gate, ScepMessage.AuthzRequest(r), w.inventory, w.answer, w.issuer.cert);
    ScepHandler.DeliveredExactlyWhen(cfg, seen, r, w);
  }

  /** A one-time code registered for the common name a device without a certificate
      asks for, unexpired and unused, is such a secret, and is spent on the request. */
  lemma HeldCodeIsAcceptedAndSpent(g: Gate, codes: Codes, req: Request, inventory: Result<Record, Failure>, now: int)
    requires !req.operation.SimpleReenroll? && req.clientCert.None? && req.csr.Some?
    requires inventory.Ok? && inventory.value.found
    requires var cn := req.csr.value.commonName;
             && cn != "" && cn in codes && codes[cn].secret == req.challengePassword != ""
             && now <= codes[cn].expires
    ensures Validated(codes, ResolveIdentity(req), req.challengePassword, now).1
    ensures Spent(g, codes, req, inventory, now) == codes - {req.csr.value.commonName}
  {
    hide Validated;
    ValidationExactlyWhen(codes, ResolveIdentity(req), req.challengePassword, now);
  }
}
