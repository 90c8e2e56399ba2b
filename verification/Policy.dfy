/** Constraint building, internal/authz/policy.go. */
module Policy {
  import opened Common
  import opened Names
  import opened Authz

  /** The configured mode string; any other string is unknown. */
  datatype Mode = IdentityMode | AllowlistMode | CSRMode | UnknownMode

  datatype StandardConstraints = StandardConstraints(mode: Mode, maxValidity: Duration)

  function FromAuthenticatedIdentity(b: StandardConstraints, id: Identity): Result<CertConstraints, PolicyError> {
    var permitted := [id.commonName] + id.dnsNames;
    if id.requestedCN != "" && !Covered([id.requestedCN], permitted) then
      Err(CNOutsideIdentity)
    else if !Covered(id.requestedDNS, permitted) then
      Err(SANOutsideIdentity)
    else if id.requestedIPs != [] || id.requestedURIs != [] then
      Err(AddressOrURIRequested)
    else
      Ok(CertConstraints(id.commonName, if id.requestedDNS != [] then id.requestedDNS else id.dnsNames,
                         [], [], b.maxValidity, false))
  }

  function Allowlist(b: StandardConstraints, id: Identity, rec: Record): Result<CertConstraints, PolicyError> {
    if rec.allowedDNSNames == [] then
      Err(NoAllowedNames)
    else if id.requestedCN != "" && !Covered([id.requestedCN], rec.allowedDNSNames) then
      Err(CNNotAllowed)
    else if !Covered(id.requestedDNS, rec.allowedDNSNames) then
      Err(SANNotAllowed)
    else if id.requestedIPs != [] || id.requestedURIs != [] then
      Err(AddressOrURIRequested)
    else
      Ok(CertConstraints(id.requestedCN, id.requestedDNS, [], [], b.maxValidity, false))
  }

  function BuildForMode(b: StandardConstraints, id: Identity, rec: Record): Result<CertConstraints, PolicyError> {
    match b.mode
    case CSRMode =>
      Ok(CertConstraints(id.requestedCN, id.requestedDNS, id.requestedIPs, id.requestedURIs, b.maxValidity, false))
    case AllowlistMode => Allowlist(b, id, rec)
    case IdentityMode => if id.authenticated then FromAuthenticatedIdentity(b, id) else Allowlist(b, id, rec)
    case UnknownMode => Err(UnknownSANMode)
  }

  /** namesConstrained: the decision bounds the subject at all. */
  predicate NamesConstrained(c: CertConstraints) {
    c.commonName != "" || c.dnsNames != [] || c.ips != [] || c.uris != []
  }

  function Build(b: StandardConstraints, id: Identity, rec: Record): Result<CertConstraints, PolicyError> {
    match BuildForMode(b, id, rec)
    case Err(e) => Err(e)
    case Ok(c) => if NamesConstrained(c) then Ok(c) else Err(NoSubject)
  }

  /** The names a request may draw on: those of its verified certificate, or the
      patterns of its inventory record. */
  function Authority(b: StandardConstraints, id: Identity, rec: Record): seq<string> {
    if b.mode.IdentityMode? && id.authenticated then [id.commonName] + id.dnsNames
    else rec.allowedDNSNames
  }

  /** What a built decision may name outside CSR mode, for every request: something,
      only what the authority covers, and no address or URI. */
  lemma BuildStaysWithinAuthority(b: StandardConstraints, id: Identity, rec: Record)
    requires !b.mode.CSRMode? && Build(b, id, rec).Ok?
    ensures var c := Build(b, id, rec).value;
            && (c.commonName != "" || c.dnsNames != []) && c.ips == [] && c.uris == []
            && c.ttl == b.maxValidity && !c.excludeCNFromSANs
            && NamesConstrained(c)
            && Covered(c.dnsNames, Authority(b, id, rec))
            && (c.commonName != "" ==> MatchedByAny(Authority(b, id, rec), c.commonName))
  {
    hide GlobMatch;
    var permitted := [id.commonName] + id.dnsNames;
    CoveredByItself(permitted);
    assert permitted[0] == id.commonName;
    assert forall n | n in id.dnsNames :: n in permitted;
    assert [id.requestedCN][0] == id.requestedCN;
  }

  /** Outside CSR mode constraints are built exactly for the requests that ask only
      for what their authority covers, for no address or URI, and end up naming
      something; in CSR mode, for every request that names something. */
  lemma BuildsExactlyWhen(b: StandardConstraints, id: Identity, rec: Record)
    ensures b.mode.CSRMode? ==>
              (Build(b, id, rec).Ok? <==>
               id.requestedCN != "" || id.requestedDNS != [] || id.requestedIPs != [] || id.requestedURIs != [])
    ensures var pinned := b.mode.IdentityMode? && id.authenticated;
            var authority := if pinned then [id.commonName] + id.dnsNames else rec.allowedDNSNames;
            !b.mode.CSRMode? ==>
            (Build(b, id, rec).Ok? <==>
            && !b.mode.UnknownMode? && authority != []
            && (id.requestedCN != "" ==> MatchedByAny(authority, id.requestedCN))
            && Covered(id.requestedDNS, authority)
            && id.requestedIPs == [] && id.requestedURIs == []
            && (if pinned then id.commonName != "" || id.dnsNames != [] || id.requestedDNS != []
                else id.requestedCN != "" || id.requestedDNS != []))
  {
    hide GlobMatch;
    assert [id.requestedCN][0] == id.requestedCN;
  }

  /** What is granted: in CSR mode the request as it stands; an authenticated device
      in identity mode keeps its own common name and may narrow its DNS names; any
      other device gets the names it asked for. */
  lemma BuildGrants(b: StandardConstraints, id: Identity, rec: Record)
    requires Build(b, id, rec).Ok?
    ensures var c := Build(b, id, rec).value;
            && c.ttl == b.maxValidity && !c.excludeCNFromSANs
            && if b.mode.CSRMode?
               then c.commonName == id.requestedCN && c.dnsNames == id.requestedDNS &&
                    c.ips == id.requestedIPs && c.uris == id.requestedURIs
               else if b.mode.IdentityMode? && id.authenticated
               then c.commonName == id.commonName &&
                    c.dnsNames == if id.requestedDNS == [] then id.dnsNames else id.requestedDNS
               else c.commonName == id.requestedCN && c.dnsNames == id.requestedDNS
  {
  }
}
