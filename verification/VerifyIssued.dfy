/** The check on what the issuer returned, internal/authz/verify.go. */
module VerifyIssued {
  import opened Common
  import opened Bytes
  import opened Names
  import opened Authz
  import opened Policy

  /** ttlSlack: one hour. */
  const TTL_SLACK: Duration := 3_600_000_000_000

  /** The DNS names an issued certificate may carry. */
  function PermittedDNS(c: CertConstraints): seq<string> {
    if c.commonName != "" && !c.excludeCNFromSANs then c.dnsNames + [c.commonName] else c.dnsNames
  }

  const V4_IN_V6: bytes := [0, 0, 0, 0, 0, 0, 0, 0, 0, 0, 255, 255]

  /** net.IP.Equal: the same octets, or four of them in sixteen. */
  predicate SameAddress(a: IP, b: IP) {
    if |a| == |b| then a == b
    else if |a| == 4 && |b| == 16 then b[..12] == V4_IN_V6 && a == b[12..]
    else if |a| == 16 && |b| == 4 then a[..12] == V4_IN_V6 && a[12..] == b
    else false
  }

  /** An address of four octets is the one of sixteen with ten zeros and two octets of
      ones in front; any other address is itself only. */
  lemma SameAddressMeaning(a: IP, b: IP)
    ensures SameAddress(a, b) <==>
            || a == b
            || (|a| == 4 && b == [0, 0, 0, 0, 0, 0, 0, 0, 0, 0, 0xff, 0xff] + a)
            || (|b| == 4 && a == [0, 0, 0, 0, 0, 0, 0, 0, 0, 0, 0xff, 0xff] + b)
  {
    assert |a| == 16 ==> a == a[..12] + a[12..];
    assert |b| == 16 ==> b == b[..12] + b[12..];
  }

  /** Some text of `list` reads as the very address `ip`. */
  predicate PermitsIP(list: seq<IPText>, ip: IP) {
    exists v | v in list :: v.parsed.Some? && SameAddress(v.parsed.value, ip)
  }

  predicate NamesAccepted(cert: Cert, c: CertConstraints) {
    && (c.commonName != "" ==> EqualFold(cert.commonName, c.commonName))
    && (forall n | n in cert.dnsNames :: ContainsFold(PermittedDNS(c), n))
    && (forall ip | ip in cert.ips :: PermitsIP(c.ips, ip))
    && (forall u | u in cert.uris :: ContainsFold(c.uris, u))
  }

  predicate LifetimeAccepted(cert: Cert, c: CertConstraints) {
    c.ttl > 0 ==> SubTime(cert.notAfter, cert.notBefore) <= AddDuration(c.ttl, TTL_SLACK)
  }

  predicate Accepted(cert: Cert, c: CertConstraints) {
    (NamesConstrained(c) ==> NamesAccepted(cert, c)) && LifetimeAccepted(cert, c)
  }

  method ContainsIP(list: seq<IPText>, want: IP) returns (found: bool)
    ensures found <==> PermitsIP(list, want)
  {
    hide SameAddress;
    for i := 0 to |list|
      invariant !PermitsIP(list[..i], want)
    {
      if list[i].parsed.Some? && SameAddress(list[i].parsed.value, want) {
        assert list[i] in list;
        return true;
      }
    }
    assert list[..|list|] == list;
    return false;
  }

  method VerifyNames(cert: Cert, c: CertConstraints) returns (ok: bool)
    ensures ok <==> NamesAccepted(cert, c)
  {
    hide SameUpToCase, EqualFold, SameAddress;
    var sameCN := EqualFoldASCII(cert.commonName, c.commonName);
    if c.commonName != "" && !sameCN {
      return false;
    }
    var permitted := c.dnsNames;
    if c.commonName != "" && !c.excludeCNFromSANs {
      permitted := c.dnsNames + [c.commonName];
    }
    for i := 0 to |cert.dnsNames|
      invariant forall n | n in cert.dnsNames[..i] :: ContainsFold(permitted, n)
    {
      var found := ContainsFoldASCII(permitted, cert.dnsNames[i]);
      if !found {
        assert cert.dnsNames[i] in cert.dnsNames;
        return false;
      }
    }
    for i := 0 to |cert.ips|
      invariant forall ip | ip in cert.ips[..i] :: PermitsIP(c.ips, ip)
    {
      var found := ContainsIP(c.ips, cert.ips[i]);
      if !found {
        assert cert.ips[i] in cert.ips;
        return false;
      }
    }
    for i := 0 to |cert.uris|
      invariant forall u | u in cert.uris[..i] :: ContainsFold(c.uris, u)
    {
      var found := ContainsFoldASCII(c.uris, cert.uris[i]);
      if !found {
        assert cert.uris[i] in cert.uris;
        return false;
      }
    }
    return true;
  }

  method VerifyIssued(cert: Option<Cert>, c: CertConstraints) returns (ok: bool)
    ensures ok <==> cert.Some? && Accepted(cert.value, c)
  {
    if cert.None? {
      return false;
    }
    if NamesConstrained(c) {
      var namesOk := VerifyNames(cert.value, c);
      if !namesOk {
        return false;
      }
    }
    if c.ttl > 0 {
      var lifetime := SubTime(cert.value.notAfter, cert.value.notBefore);
      return lifetime <= AddDuration(c.ttl, TTL_SLACK);
    }
    return true;
  }

  /** The lifetimes accepted, in nanoseconds: up to the authorized one and an hour, as
      64 bits add them up; every lifetime if that sum is the greatest duration. */
  lemma LifetimeAcceptedExactlyWhen(cert: Cert, c: CertConstraints)
    requires c.ttl > 0
    ensures var limit := c.ttl + 3_600_000_000_000;
            LifetimeAccepted(cert, c) <==>
            || limit == 0x7fff_ffff_ffff_ffff
            || cert.notAfter - cert.notBefore <=
               if limit > 0x7fff_ffff_ffff_ffff then limit - 0x1_0000_0000_0000_0000 else limit
  {
  }

  /** The check as a whole: a decision that names anything bounds the common name it
      gives, and every DNS name, address and URI, each up to case or length; and one
      with a lifetime bounds that. */
  lemma AcceptedExactlyWhen(cert: Cert, c: CertConstraints)
    ensures Accepted(cert, c) <==>
            && (c.commonName != "" || c.dnsNames != [] || c.ips != [] || c.uris != [] ==>
                  && (c.commonName != "" ==> SameUpToCase(cert.commonName, c.commonName))
                  && (forall n | n in cert.dnsNames ::
                        || (exists v | v in c.dnsNames :: SameUpToCase(v, n))
                        || (c.commonName != "" && !c.excludeCNFromSANs && SameUpToCase(c.commonName, n)))
                  && (forall ip | ip in cert.ips ::
                        exists v | v in c.ips :: v.parsed.Some? && SameAddress(v.parsed.value, ip))
                  && (forall u | u in cert.uris :: exists v | v in c.uris :: SameUpToCase(v, u)))
            && (c.ttl > 0 ==> LifetimeAccepted(cert, c))
  {
    hide EqualFold, SameUpToCase, SameAddress;
    forall a, b ensures EqualFold(a, b) <==> SameUpToCase(a, b) {
      FoldMeaning(a, b);
    }
  }

  /** The names of an accepted certificate are covered by any authority that covers
      the decision: a name the issuer folded or mirrored is still that name. */
  lemma AcceptedNamesAreCovered(cert: Cert, c: CertConstraints, authority: seq<string>)
    requires NamesConstrained(c) && Accepted(cert, c)
    requires Covered(c.dnsNames, authority)
    requires c.commonName != "" ==> MatchedByAny(authority, c.commonName)
    ensures Covered(cert.dnsNames, authority)
    ensures c.commonName != "" ==> MatchedByAny(authority, cert.commonName)
    ensures c.ips == [] ==> cert.ips == []
    ensures c.uris == [] ==> cert.uris == []
  {
    forall n | n in cert.dnsNames ensures MatchedByAny(authority, n) {
      var v :| v in PermittedDNS(c) && EqualFold(v, n);
      MatchedUpToFold(authority, v, n);
    }
    if c.commonName != "" {
      MatchedUpToFold(authority, c.commonName, cert.commonName);
    }
    assert cert.ips == [] || cert.ips[0] in cert.ips;
    assert cert.uris == [] || cert.uris[0] in cert.uris;
  }

  /** The cap on lifetimes, in true time: every accepted certificate lives at most
      the authorized time plus the slack, exactly when that sum is not the one value
      at which a saturated subtraction looks like a lifetime that just fits. A sum
      that wraps around accepts less, never more. */
  lemma LifetimeCapHoldsExactlyWhen(c: CertConstraints)
    requires c.ttl > 0
    ensures (forall cert: Cert | LifetimeAccepted(cert, c) :: cert.notAfter - cert.notBefore <= c.ttl + TTL_SLACK)
            <==> c.ttl + TTL_SLACK != MAX_DURATION
  {
    if c.ttl + TTL_SLACK == MAX_DURATION {
      var endless := Cert("", [], [], [], [], [], "", "", 0, MAX_DURATION + 1);
      assert LifetimeAccepted(endless, c);
    }
  }

  /** The check is no obstacle to an honest issuer: a certificate with the authorized
      common name, only authorized names, and a lifetime within the authorized one
      passes, whether or not the issuer mirrored the common name among the others. */
  lemma HonestCertificateIsAccepted(cert: Cert, c: CertConstraints)
    requires c.commonName != "" ==> EqualFold(cert.commonName, c.commonName)
    requires forall n | n in cert.dnsNames :: n in c.dnsNames || (n == c.commonName != "" && !c.excludeCNFromSANs)
    requires (forall ip | ip in cert.ips :: PermitsIP(c.ips, ip)) && (forall u | u in cert.uris :: u in c.uris)
    requires c.ttl > 0 ==> cert.notAfter - cert.notBefore <= c.ttl && c.ttl + TTL_SLACK <= MAX_DURATION
    ensures Accepted(cert, c)
  {
    assert forall u | u in cert.uris :: EqualFold(u, u);
    forall n | n in cert.dnsNames ensures ContainsFold(PermittedDNS(c), n) {
      assert n in PermittedDNS(c) && EqualFold(n, n);
    }
  }
}
