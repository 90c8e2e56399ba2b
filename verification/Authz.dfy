/** Requests, certificates and identities: internal/authz/authz.go, identity.go. */
module Authz {
  import opened Common
  import opened Bytes

  /** Nanoseconds, as Go's 64-bit time.Duration. */
  type Duration = d: int | MIN_DURATION <= d <= MAX_DURATION

  const MIN_DURATION: int := -0x8000_0000_0000_0000
  const MAX_DURATION: int := 0x7fff_ffff_ffff_ffff

  /** 64-bit addition wraps around. */
  function AddDuration(a: Duration, b: Duration): Duration {
    if a + b > MAX_DURATION then a + b - 0x1_0000_0000_0000_0000
    else if a + b < MIN_DURATION then a + b + 0x1_0000_0000_0000_0000
    else a + b
  }

  /** Time.Sub saturates. Instants are nanosecond counts. */
  function SubTime(a: int, b: int): Duration {
    if a - b > MAX_DURATION then MAX_DURATION
    else if a - b < MIN_DURATION then MIN_DURATION
    else a - b
  }

  /** Go's net.IP: any octets, of which only four or sixteen are an address. */
  type IP = bytes

  /** An address in a request is text; `parsed` is what net.ParseIP makes of it. */
  datatype IPText = IPText(text: string, parsed: Option<IP>)

  /** URIs are kept in their text form. */
  datatype Cert = Cert(
    commonName: string, orgUnits: seq<string>, orgs: seq<string>,
    dnsNames: seq<string>, ips: seq<IP>, uris: seq<string>,
    serial: string, fingerprint: string, notBefore: int, notAfter: int)

  function NamesOf(c: Cert): seq<string> { [c.commonName] + c.dnsNames }

  datatype CSR = CSR(commonName: string, dnsNames: seq<string>, ips: seq<IPText>, uris: seq<string>)

  datatype Operation = SimpleEnroll | SimpleReenroll | ServerKeyGen

  /** What the protocol handlers hand to the authorizer. */
  datatype Request = Request(
    operation: Operation, clientCert: Option<Cert>, csr: Option<CSR>, challengePassword: string, estLabel: string)

  datatype Identity = Identity(
    authenticated: bool,
    commonName: string, orgUnits: seq<string>, orgs: seq<string>, dnsNames: seq<string>,
    serial: string, fingerprint: string,
    estLabel: string,
    requestedCN: string, requestedDNS: seq<string>, requestedIPs: seq<IPText>, requestedURIs: seq<string>)

  /** resolveIdentity: authenticated attributes come from the verified certificate
      alone, requested ones from the CSR alone. */
  function ResolveIdentity(req: Request): Identity {
    var c := if req.clientCert.Some? then req.clientCert.value
             else Cert("", [], [], [], [], [], "", "", 0, 0);
    var r := if req.csr.Some? then req.csr.value else CSR("", [], [], []);
    Identity(req.clientCert.Some?, c.commonName, c.orgUnits, c.orgs, c.dnsNames, c.serial, c.fingerprint,
             req.estLabel, r.commonName, r.dnsNames, r.ips, r.uris)
  }

  /** What a device is and what it asks for never mix: the authenticated side is the
      verified certificate's, empty if there is none, whatever the request says, and
      the requested side the request's, whatever the certificate says. */
  lemma IdentityKeepsTheSidesApart(req: Request)
    ensures var id := ResolveIdentity(req);
            && (id.authenticated <==> req.clientCert.Some?)
            && id.estLabel == req.estLabel
            && (match req.clientCert
                case Some(c) =>
                  && id.commonName == c.commonName && id.dnsNames == c.dnsNames && id.serial == c.serial
                  && id.fingerprint == c.fingerprint && id.orgs == c.orgs && id.orgUnits == c.orgUnits
                case None =>
                  && id.commonName == id.serial == id.fingerprint == ""
                  && id.dnsNames == id.orgs == id.orgUnits == [])
            && (match req.csr
                case Some(r) =>
                  && id.requestedCN == r.commonName && id.requestedDNS == r.dnsNames
                  && id.requestedIPs == r.ips && id.requestedURIs == r.uris
                case None =>
                  id.requestedCN == "" && id.requestedDNS == id.requestedURIs == [] && id.requestedIPs == [])
  {
  }

  /** The bounded parameters requested from the issuer. */
  datatype CertConstraints = CertConstraints(
    commonName: string, dnsNames: seq<string>, ips: seq<IPText>, uris: seq<string>,
    ttl: Duration, excludeCNFromSANs: bool)

  /** What the inventory says of a device. */
  datatype Record = Record(found: bool, allowedDNSNames: seq<string>, requireChallenge: bool, role: string)

  /** Why the constraint policy refuses a request. */
  datatype PolicyError =
    | CNOutsideIdentity | SANOutsideIdentity | NoAllowedNames | CNNotAllowed | SANNotAllowed
    | AddressOrURIRequested | UnknownSANMode | NoSubject

  datatype Reason =
    | Authorized | NoClientCertificate | NotInInventory | NoChallengeValidator | ChallengeFailed
    | Unauthenticated | NoRole | NoConstraintPolicy | Unbuildable(error: PolicyError)

  datatype Decision = Decision(allow: bool, role: string, constraints: CertConstraints, reason: Reason)

  /** An infrastructure failure, surfaced and not turned into a denial. */
  datatype Failure = InventoryFailure

  const NO_CONSTRAINTS := CertConstraints("", [], [], [], 0, false)

  function Deny(reason: Reason): Decision { Decision(false, "", NO_CONSTRAINTS, reason) }
}
