/** The EST release paths: enroll, serverKeyGen and clientIdentity of
    internal/est/handler.go, with VerifyPeer of internal/est/server.go. HTTP, the
    CSR parser and the chain verifier are outside; their results are parameters. */
module EstHandler {
  import opened Common
  import opened Authz
  import opened VerifyIssued
  import opened Pipeline
  import opened Issuance

  /** The TLS peer: none, or a leaf that verifies against neither, either or both of
      the two anchors. An anchor that is not configured verifies nothing. */
  datatype Peer = NoPeer | Peer(leaf: Cert, chainsToDevice: bool, chainsToBootstrap: bool)

  /** clientIdentity: None where re-enrollment must be refused. Initial enrollment
      ignores a certificate it cannot verify. */
  function ClientIdentity(peer: Peer, op: Operation): Option<Option<Cert>> {
    match op
    case SimpleReenroll =>
      if peer.Peer? && peer.chainsToDevice then Some(Some(peer.leaf)) else None
    case ServerKeyGen =>
      if peer.Peer? && (peer.chainsToDevice || peer.chainsToBootstrap) then Some(Some(peer.leaf)) else Some(None)
    case SimpleEnroll =>
      if peer.Peer? && peer.chainsToBootstrap then Some(Some(peer.leaf)) else Some(None)
  }

  /** A request whose body, CSR and key type have passed. */
  datatype EstRequest = EstRequest(op: Operation, peer: Peer, csr: CSR, challenge: string, estLabel: string)

  datatype Reply = Refused | Released(cert: Cert)

  datatype Handled = Handled(reply: Reply, call: Option<SignCall>)

  function AuthzRequest(r: EstRequest, clientCert: Option<Cert>): Request {
    Request(r.op, clientCert, Some(r.csr), r.challenge, r.estLabel)
  }

  /** enroll and serverKeyGen; for the latter `keyDecodes` says whether the key the
      issuer made is readable. */
  function Answered(g: Gate, r: EstRequest, w: World, keyDecodes: bool): Handled {
    var client := ClientIdentity(r.peer, r.op);
    if client.None? then Handled(Refused, None)
    else
      var az := AuthzRequest(r, client.value);
      if !Allows(g, az, w.inventory, w.answer) then Handled(Refused, None)
      else
        var d := Decide(g, az, w.inventory, w.answer).value;
        var call := Some(SignCall(az, d.role, ToSignOptions(d.constraints)));
        if w.issuer.IssuerError? || (r.op.ServerKeyGen? && !keyDecodes) || w.issuer.Undecodable? then
          Handled(Refused, call)
        else if !Accepted(w.issuer.cert, d.constraints) || !w.replyBuilds then Handled(Refused, call)
        else Handled(Released(w.issuer.cert), call)
  }

  /** checkIssued: the check is never optional here. */
  method CheckIssued(issued: IssuerReply, d: Decision) returns (ok: bool)
    ensures ok <==> issued.Issued? && Accepted(issued.cert, d.constraints)
  {
    if !issued.Issued? {
      return false;
    }
    ok := VerifyIssued.VerifyIssued(Some(issued.cert), d.constraints);
  }

  /** VerifyPeer, against the device anchor or the bootstrap anchor. */
  method VerifyPeer(peer: Peer, device: bool) returns (leaf: Option<Cert>)
    ensures leaf.Some? ==> peer.Peer? && leaf.value == peer.leaf
    ensures leaf.Some? <==> peer.Peer? && (if device then peer.chainsToDevice else peer.chainsToBootstrap)
  {
    if peer.NoPeer? {
      return None;
    }
    leaf := if (if device then peer.chainsToDevice else peer.chainsToBootstrap) then Some(peer.leaf) else None;
  }

  /** clientIdentity: only a re-enrollment without a device certificate is refused;
      otherwise the client is the presented leaf if it chains to the device anchor and
      this is no first enrollment, or to the bootstrap anchor and this is no
      re-enrollment, and nobody if it does neither. */
  method IdentifyClient(peer: Peer, op: Operation) returns (client: Option<Option<Cert>>)
    ensures client.None? <==> op.SimpleReenroll? && (peer.NoPeer? || !peer.chainsToDevice)
    ensures client.Some? ==>
              client.value ==
              if peer.Peer? && ((peer.chainsToDevice && !op.SimpleEnroll?)
                                || (peer.chainsToBootstrap && !op.SimpleReenroll?))
              then Some(peer.leaf) else None
    ensures client == ClientIdentity(peer, op)
  {
    if op.SimpleReenroll? {
      var leaf := VerifyPeer(peer, true);
      return if leaf.Some? then Some(leaf) else None;
    }
    if op.ServerKeyGen? && peer.Peer? {
      var leaf := VerifyPeer(peer, true);
      if leaf.Some? {
        return Some(leaf);
      }
    }
    if peer.NoPeer? {
      return Some(None);
    }
    var leaf := VerifyPeer(peer, false);
    return Some(leaf);
  }

  /** enroll and serverKeyGen, effect by effect. The ghost result is the world the
      request met. */
  method Enroll(p: Pipeline, r: EstRequest, now: int, issuer: IssuerReply, keyDecodes: bool, replyBuilds: bool)
    returns (h: Handled, ghost w: World)
    modifies StoreOf(p.challenge)
    ensures w.now == now && w.issuer == issuer && w.replyBuilds == replyBuilds
    ensures h == Answered(p.gate, r, w, keyDecodes)
    ensures var client := ClientIdentity(r.peer, r.op);
            client.Some? ==>
              var id := ResolveIdentity(AuthzRequest(r, client.value));
              && InventoryAnswers(p.inventory, id, w.inventory)
              && w.answer == old(AnswerOf(p.challenge, id, r.challenge, now))
    ensures p.challenge.OneTime? ==>
              var client := ClientIdentity(r.peer, r.op);
              p.challenge.store.codes ==
                if client.None? then old(p.challenge.store.codes)
                else Spent(p.gate, old(p.challenge.store.codes), AuthzRequest(r, client.value), w.inventory, now)
  {
    w := World(now, Err(InventoryFailure), None, issuer, replyBuilds);
    var client := IdentifyClient(r.peer, r.op);
    if client.None? {
      return Handled(Refused, None), w;
    }
    var az := AuthzRequest(r, client.value);
    ghost var answer := AnswerOf(p.challenge, ResolveIdentity(az), az.challengePassword, now);
    var decided;
    ghost var found;
    decided, found := Authorize(p, az, now);
    w := World(now, found, answer, issuer, replyBuilds);
    if decided.Err? || !decided.value.allow {
      return Handled(Refused, None), w;
    }
    var d := decided.value;
    var call := Some(SignCall(az, d.role, ToSignOptions(d.constraints)));
    if issuer.IssuerError? || (r.op.ServerKeyGen? && !keyDecodes) {
      return Handled(Refused, call), w;
    }
    var ok := CheckIssued(issuer, d);
    if !ok || !replyBuilds {
      return Handled(Refused, call), w;
    }
    return Handled(Released(issuer.cert), call), w;
  }

  /** EST delivers exactly when the client is acceptable, the pipeline allows, and
      what the issuer made decodes, passes the check and encodes; then it delivers
      just that, made for the client it identified. */
  lemma DeliveredExactlyWhen(g: Gate, r: EstRequest, w: World, keyDecodes: bool)
    ensures var client := ClientIdentity(r.peer, r.op);
            Answered(g, r, w, keyDecodes).reply.Released? <==>
            && (r.op.SimpleReenroll? ==> r.peer.Peer? && r.peer.chainsToDevice)
            && var az := AuthzRequest(r, client.value);
               && Allows(g, az, w.inventory, w.answer)
               && w.issuer.Issued? && (r.op.ServerKeyGen? ==> keyDecodes) && w.replyBuilds
               && Accepted(w.issuer.cert, Decide(g, az, w.inventory, w.answer).value.constraints)
    ensures var client := ClientIdentity(r.peer, r.op);
            Answered(g, r, w, keyDecodes).call.Some? <==>
            client.Some? && Allows(g, AuthzRequest(r, client.value), w.inventory, w.answer)
    ensures var h := Answered(g, r, w, keyDecodes);
            h.reply.Released? ==>
              h.reply == Released(w.issuer.cert) && h.call.Some? && h.call.value.req ==
                                                    AuthzRequest(r, ClientIdentity(r.peer, r.op).value)
  {
    hide Accepted;
    hide Decide;
  }

  /** Every call EST makes carries the request as it came in and asks for just what was
      decided, so it stays within the authority. */
  lemma CallsCarryTheDecision(g: Gate, r: EstRequest, w: World, keyDecodes: bool)
    requires Answered(g, r, w, keyDecodes).call.Some?
    ensures var call := Answered(g, r, w, keyDecodes).call.value;
            && call.req.operation == r.op && call.req.csr == Some(r.csr)
            && call.req.challengePassword == r.challenge && call.req.estLabel == r.estLabel
            && CarriesTheDecision(g, w.inventory, call)
  {
    hide Decide, CarriesTheDecision;
    AllowedCallCarriesTheDecision(g, AuthzRequest(r, ClientIdentity(r.peer, r.op).value), w.inventory, w.answer);
  }

  /** Every certificate EST releases, from either path and whatever the issuer
      returned, is within the bound. */
  lemma ReleasedIsWithinBound(g: Gate, r: EstRequest, w: World, keyDecodes: bool)
    requires g.constraints.Some? && !g.constraints.value.mode.CSRMode?
    requires Answered(g, r, w, keyDecodes).reply.Released?
    ensures var h := Answered(g, r, w, keyDecodes);
            && w.inventory.Ok? && w.issuer == Issued(h.reply.cert) && h.call.Some?
            && WithinBound(g.constraints.value, ResolveIdentity(h.call.value.req), w.inventory.value, h.reply.cert)
  {
    hide Accepted, WithinBound, Answered;
    DeliveredExactlyWhen(g, r, w, keyDecodes);
    var az := AuthzRequest(r, ClientIdentity(r.peer, r.op).value);
    AllowedExactlyWhen(g, az, w.inventory, w.answer);
    CheckedCertificateIsWithinBound(g, az, w.inventory, w.answer, w.issuer.cert);
  }

  /** The two anchors stay apart: a re-enrollment reaches the issuer only with a peer
      verified against the device anchor, a first enrollment is never authenticated
      by one that chains to the device anchor alone, and a request that reaches the
      issuer without a certificate has brought other proof. */
  lemma CallsAreAnchored(g: Gate, r: EstRequest, w: World, keyDecodes: bool)
    requires Answered(g, r, w, keyDecodes).call.Some?
    ensures var req := Answered(g, r, w, keyDecodes).call.value.req;
            && (req.clientCert.Some? ==> r.peer.Peer? && req.clientCert == Some(r.peer.leaf))
            && (r.op.SimpleReenroll? ==> req.clientCert.Some? && r.peer.chainsToDevice)
            && (r.op.SimpleEnroll? && req.clientCert.Some? ==> r.peer.chainsToBootstrap)
            && (req.clientCert.None? ==> g.allowUnauthenticated ||
                                         (req.challengePassword != "" && w.answer.Some? && w.answer.value))
  {
    var az := AuthzRequest(r, ClientIdentity(r.peer, r.op).value);
    AllowedExactlyWhen(g, az, w.inventory, w.answer);
  }
}
