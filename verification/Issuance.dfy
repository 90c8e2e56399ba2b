/** What the EST and SCEP handlers share: the call to the issuer, its answer, and
    the bound on what may be released. */
module Issuance {
  import opened Common
  import opened Names
  import opened Authz
  import opened Policy
  import opened VerifyIssued
  import opened Pipeline

  /** toSignOptions' target; a None ttl leaves the lifetime to the role. */
  datatype SignOptions = SignOptions(
    commonName: string, altNames: seq<string>, ipSANs: seq<IPText>, uriSANs: seq<string>,
    ttl: Option<Duration>, excludeCNFromSANs: bool)

  function ToSignOptions(c: CertConstraints): SignOptions {
    SignOptions(c.commonName, c.dnsNames, c.ips, c.uris, if c.ttl > 0 then Some(c.ttl) else None, c.excludeCNFromSANs)
  }

  /** One upstream call, and the authenticated request it was made for. */
  datatype SignCall = SignCall(req: Request, role: string, options: SignOptions)

  /** The issuer may fail, answer with something that does not decode, or return
      any certificate at all. */
  datatype IssuerReply = IssuerError | Undecodable | Issued(cert: Cert)

  /** Everything outside the handler that one request meets. `answer` is what the
      challenge validator would say, None if there is none. */
  datatype World = World(
    now: int, inventory: Result<Record, Failure>, answer: Option<bool>, issuer: IssuerReply, replyBuilds: bool)

  /** The bound every released certificate has to meet: its DNS names, and its
      common name wherever one was authorized, are covered by the certificate that
      authenticated the request or by its inventory record; it carries no address
      or URI; and it lives no longer than the policy says, plus an hour. */
  ghost predicate WithinBound(b: StandardConstraints, id: Identity, rec: Record, cert: Cert) {
    && Covered(cert.dnsNames, Authority(b, id, rec))
    && (Build(b, id, rec).Ok? && Build(b, id, rec).value.commonName != "" ==>
          MatchedByAny(Authority(b, id, rec), cert.commonName))
    && cert.ips == [] && cert.uris == []
    && (b.maxValidity > 0 && b.maxValidity + TTL_SLACK != MAX_DURATION ==>
          cert.notAfter - cert.notBefore <= b.maxValidity + TTL_SLACK)
  }

  /** The heart of release safety, for an issuer that returns any certificate: what
      was allowed and then passed the check is within the bound. The check cannot be
      skipped for want of names, because a decision always names something. */
  lemma CheckedCertificateIsWithinBound(g: Gate, req: Request, inventory: Result<Record, Failure>,
                                        answer: Option<bool>, cert: Cert)
    requires Allows(g, req, inventory, answer) && !g.constraints.value.mode.CSRMode?
    requires Accepted(cert, Decide(g, req, inventory, answer).value.constraints)
    ensures WithinBound(g.constraints.value, ResolveIdentity(req), inventory.value, cert)
  {
    hide GlobMatch;
    hide Accepted;
    AllowedExactlyWhen(g, req, inventory, answer);
    var b, id, rec := g.constraints.value, ResolveIdentity(req), inventory.value;
    var c := Build(b, id, rec).value;
    BuildStaysWithinAuthority(b, id, rec);
    AcceptedNamesAreCovered(cert, c, Authority(b, id, rec));
    if c.ttl > 0 && c.ttl + TTL_SLACK != MAX_DURATION {
      AcceptedLifetime(cert, c);
    }
  }

  lemma AcceptedLifetime(cert: Cert, c: CertConstraints)
    requires Accepted(cert, c) && c.ttl > 0 && c.ttl + TTL_SLACK != MAX_DURATION
    ensures cert.notAfter - cert.notBefore <= c.ttl + TTL_SLACK
  {
    LifetimeCapHoldsExactlyWhen(c);
  }

  /** `call` asks the issuer for what was decided, field by field: the role of the
      device's record or else the selected one, and the constraints built for it. */
  ghost predicate CarriesTheDecision(g: Gate, inventory: Result<Record, Failure>, call: SignCall) {
    && inventory.Ok? && g.constraints.Some?
    && var id, rec := ResolveIdentity(call.req), inventory.value;
       && (rec.role == "" ==> g.roles.Some?)
       && call.role == (if rec.role != "" then rec.role else g.roles.value(id))
       && call.role != ""
       && Build(g.constraints.value, id, rec).Ok?
       && var (o, c) := (call.options, Build(g.constraints.value, id, rec).value);
          && o.commonName == c.commonName && o.altNames == c.dnsNames
          && o.ipSANs == c.ips && o.uriSANs == c.uris
          && o.ttl == (if c.ttl > 0 then Some(c.ttl) else None)
          && o.excludeCNFromSANs == c.excludeCNFromSANs
  }

  /** An allowed request makes such a call. */
  lemma AllowedCallCarriesTheDecision(g: Gate, req: Request, inventory: Result<Record, Failure>, answer: Option<bool>)
    requires Allows(g, req, inventory, answer)
    ensures var d := Decide(g, req, inventory, answer).value;
            CarriesTheDecision(g, inventory, SignCall(req, d.role, ToSignOptions(d.constraints)))
  {
    hide Build;
    AllowedExactlyWhen(g, req, inventory, answer);
  }

  /** So what is asked of the issuer is bounded too, before it answers anything: names
      that the verified certificate or the inventory record covers, at least one, no
      address or URI, and the lifetime of the policy. */
  lemma CallStaysWithinAuthority(g: Gate, inventory: Result<Record, Failure>, call: SignCall)
    requires CarriesTheDecision(g, inventory, call) && !g.constraints.value.mode.CSRMode?
    ensures var (o, ttl) := (call.options, g.constraints.value.maxValidity);
            var authority := if g.constraints.value.mode.IdentityMode? && call.req.clientCert.Some?
                             then [call.req.clientCert.value.commonName] + call.req.clientCert.value.dnsNames
                             else inventory.value.allowedDNSNames;
            && Covered(o.altNames, authority)
            && (o.commonName != "" ==> MatchedByAny(authority, o.commonName))
            && (o.commonName != "" || o.altNames != [])
            && o.ipSANs == [] && o.uriSANs == [] && !o.excludeCNFromSANs
            && o.ttl == (if ttl > 0 then Some(ttl) else None)
  {
    hide GlobMatch, Build;
    BuildStaysWithinAuthority(g.constraints.value, ResolveIdentity(call.req), inventory.value);
  }
}
