/** Identity continuity: what any number of renewals, answered by an issuer that
    may return any certificate at all, can do to the names of a device.

    It joins internal/authz/policy.go (names are pinned to the presented
    certificate), internal/authz/verify.go (what came back is checked) and
    internal/authz/match.go (today's names are tomorrow's patterns). */
module Continuity {
  import opened Common
  import opened Names
  import opened Authz
  import opened Policy
  import opened VerifyIssued
  import opened Pipeline
  import Service
  import Issuance
  import EstHandler
  import ScepMessage
  import ScepHandler

  /** One renewal: the gate, the request and everything the world answered. */
  datatype Renewal = Renewal(
    gate: Gate, req: Request, inventory: Result<Record, Failure>, answer: Option<bool>, issued: Cert)

  /** `prev` authenticates a request, in identity mode, that the pipeline allows, and
      the issuer's answer passes the check, so it is released. */
  predicate Renews(prev: Cert, r: Renewal) {
    && r.req.clientCert == Some(prev)
    && r.gate.constraints.Some? && r.gate.constraints.value.mode.IdentityMode?
    && Allows(r.gate, r.req, r.inventory, r.answer)
    && Accepted(r.issued, Decide(r.gate, r.req, r.inventory, r.answer).value.constraints)
  }

  /** Each released certificate authenticates the next renewal. */
  predicate Chain(first: Cert, renewals: seq<Renewal>)
    decreases |renewals|
  {
    renewals == [] || (Renews(first, renewals[0]) && Chain(renewals[0].issued, renewals[1..]))
  }

  function Last(first: Cert, renewals: seq<Renewal>): Cert {
    if renewals == [] then first else renewals[|renewals| - 1].issued
  }

  /** `c` is still the device that `first` named. */
  ghost predicate Continues(first: Cert, c: Cert) {
    && SameUpToCase(c.commonName, first.commonName)
    && Covered(c.dnsNames, NamesOf(first))
    && c.ips == [] && c.uris == []
  }

  lemma RenewalContinues(prev: Cert, r: Renewal)
    requires Renews(prev, r) && prev.commonName != ""
    ensures Continues(prev, r.issued) && r.issued.commonName != ""
    ensures Covered(NamesOf(r.issued), NamesOf(prev))
  {
    hide GlobMatch, Accepted, Build, SameUpToCase;
    var b, id := r.gate.constraints.value, ResolveIdentity(r.req);
    AllowedExactlyWhen(r.gate, r.req, r.inventory, r.answer);
    var c := Decide(r.gate, r.req, r.inventory, r.answer).value.constraints;
    BuildStaysWithinAuthority(b, id, r.inventory.value);
    BuildGrants(b, id, r.inventory.value);
    assert c.commonName == prev.commonName && Authority(b, id, r.inventory.value) == NamesOf(prev);
    AcceptedNamesAreCovered(r.issued, c, NamesOf(prev));
    AcceptedKeepsCN(r.issued, c);
  }

  lemma AcceptedKeepsCN(cert: Cert, c: CertConstraints)
    requires Accepted(cert, c) && c.commonName != ""
    ensures SameUpToCase(cert.commonName, c.commonName) && cert.commonName != ""
  {
    FoldMeaning(cert.commonName, c.commonName);
  }

  /** After any number of renewals, whatever the issuer answered, the device still
      has its first common name up to case, only DNS names its first certificate
      covered, and no address or URI. */
  lemma {:induction false} RenewalsNeverRename(first: Cert, renewals: seq<Renewal>)
    requires first.commonName != "" && Chain(first, renewals) && renewals != []
    ensures Continues(first, Last(first, renewals))
    ensures Covered(NamesOf(Last(first, renewals)), NamesOf(first))
    decreases |renewals|
  {
    hide GlobMatch, Renews;
    var next := renewals[0].issued;
    RenewalContinues(first, renewals[0]);
    if |renewals| > 1 {
      RenewalsNeverRename(next, renewals[1..]);
      var last := Last(first, renewals);
      CoveredTransitive(NamesOf(last), NamesOf(next), NamesOf(first));
      CoveredTransitive(last.dnsNames, NamesOf(next), NamesOf(first));
    }
  }

  // ---- Both protocols renew only in this way ----

  /** What EST releases to an authenticated request in identity mode is a renewal of
      the certificate that authenticated it. */
  lemma EstReleaseIsARenewal(g: Gate, r: EstHandler.EstRequest, w: Issuance.World, keyDecodes: bool)
    requires g.constraints.Some? && g.constraints.value.mode.IdentityMode?
    requires var h := EstHandler.Answered(g, r, w, keyDecodes);
             h.reply.Released? && h.call.value.req.clientCert.Some?
    ensures var h := EstHandler.Answered(g, r, w, keyDecodes);
            Renews(r.peer.leaf, Renewal(g, h.call.value.req, w.inventory, w.answer, h.reply.cert))
  {
    hide Accepted, EstHandler.Answered;
    EstHandler.DeliveredExactlyWhen(g, r, w, keyDecodes);
  }

  /** What SCEP releases to a RenewalReq in identity mode, with the check wired in,
      is a renewal of the certificate that signed the request. */
  lemma ScepReleaseIsARenewal(cfg: ScepHandler.Config, seen: map<string, int>, m: ScepMessage.Message,
                              w: Issuance.World)
    requires cfg.verifyIssued && cfg.gate.constraints.Some? && cfg.gate.constraints.value.mode.IdentityMode?
    requires ScepMessage.Parse(cfg.deviceRoots, m).Some?
    requires var r := ScepMessage.Parse(cfg.deviceRoots, m).value;
             r.attributes.messageType == ScepMessage.RenewalReq &&
             ScepHandler.Answered(cfg, seen, r, w).1.reply.Success?
    ensures var r := ScepMessage.Parse(cfg.deviceRoots, m).value;
            && m.anchored.Some?
            && Renews(m.anchored.value.signer,
                      Renewal(cfg.gate, ScepMessage.AuthzRequest(r), w.inventory, w.answer,
                              ScepHandler.Answered(cfg, seen, r, w).1.reply.cert))
  {
    hide Accepted, ScepHandler.Answered, ScepMessage.Parse;
    ScepMessage.OnlyAnchoredSignersAreIdentities(cfg.deviceRoots, m);
    ScepHandler.DeliveredExactlyWhen(cfg, seen, ScepMessage.Parse(cfg.deviceRoots, m).value, w);
  }

  // ---- Where continuity ends: a certificate without a common name ----

  const ANY_GATE := Gate(false, false, Some((id: Identity) => "role"), Some(StandardConstraints(IdentityMode, 0)))

  /** `prev` renews itself into a certificate named `cn` and `dns`, asking for `asked`. */
  function Ask(prev: Cert, asked: seq<string>, cn: string, dns: seq<string>): Renewal {
    Renewal(ANY_GATE, Request(SimpleReenroll, Some(prev), Some(CSR("", asked, [], [])), "", ""),
            Ok(Record(true, [], false, "")), None, Cert(cn, [], [], dns, [], [], "", "", 0, 0))
  }

  lemma AskRenews(prev: Cert, asked: seq<string>, cn: string, dns: seq<string>)
    requires forall n | n in asked :: n in NamesOf(prev)
    requires prev.commonName != "" || asked != [] || prev.dnsNames != []
    requires prev.commonName in {"", cn}
    requires forall n | n in dns :: n in if asked == [] then prev.dnsNames else asked
    ensures Renews(prev, Ask(prev, asked, cn, dns))
  {
    hide Allows, Decide, Accepted, HasProof, SameUpToCase;
    var r := Ask(prev, asked, cn, dns);
    SameAsItself(cn);
    AskHasProof(prev, r);
    Service.OwnNamesPassEveryStage(ANY_GATE, prev, r.req, r.inventory, None, r.issued);
  }

  lemma AskHasProof(prev: Cert, r: Renewal)
    requires r.req == Request(SimpleReenroll, Some(prev), r.req.csr, "", "")
    requires r.inventory == Ok(Record(true, [], false, ""))
    ensures HasProof(ANY_GATE, r.req, r.inventory.value, None)
  {
  }

  lemma SameAsItself(n: string)
    ensures SameUpToCase(n, n)
  {
  }

  /** What a nameless device asks for to have a subject at all: nothing if it has DNS
      names, which it then keeps, else the empty name, which its own empty common name
      covers. */
  function Least(first: Cert): seq<string> { if first.dnsNames == [] then [""] else [] }

  /** The natural run: a device whose certificate has DNS names but no common name
      renews with an empty request, and the issuer puts in a common name of its own
      choosing. The check lets it pass, and every later renewal keeps that name. */
  lemma NamelessDeviceIsGivenAName(first: Cert, name: string)
    requires first.commonName == "" && first.dnsNames != [] && name != ""
    ensures exists r: Renewal ::
              && r.req.csr == Some(CSR("", [], [], [])) && Renews(first, r)
              && r.issued.commonName == name && r.issued.dnsNames == first.dnsNames
              && forall renewals | renewals != [] && Chain(r.issued, renewals) ::
                   SameUpToCase(Last(r.issued, renewals).commonName, name)
  {
    hide Renews, Chain, Last, SameUpToCase;
    var r := Ask(first, [], name, first.dnsNames);
    AskRenews(first, [], name, first.dnsNames);
    forall renewals | renewals != [] && Chain(r.issued, renewals)
      ensures SameUpToCase(Last(r.issued, renewals).commonName, name)
    {
      RenewalsNeverRename(r.issued, renewals);
    }
    assert r.req.csr == Some(CSR("", [], [], []));
  }

  /** Renewals keep the name of every device, over all chains, exactly when the
      device's first certificate has a common name. Without one the check skips the
      common name, so the issuer may put any name there, and the next renewal takes
      that name for the device's own. */
  lemma NoRenewalRenamesExactlyWhenNamed(first: Cert)
    ensures (forall renewals | renewals != [] && Chain(first, renewals) :: Continues(first, Last(first, renewals)))
            <==> first.commonName != ""
  {
    hide GlobMatch;
    hide Renews;
    if first.commonName != "" {
      forall renewals | renewals != [] && Chain(first, renewals) ensures Continues(first, Last(first, renewals)) {
        RenewalsNeverRename(first, renewals);
      }
    } else {
      var r := Ask(first, Least(first), "x", []);
      AskRenews(first, Least(first), "x", []);
      assert Chain(first, [r]);
      assert Last(first, [r]).commonName == "x" && !SameUpToCase("x", first.commonName);
    }
  }

  /** A name longer than every pattern and without a dot. */
  function Stranger(patterns: seq<string>): string {
    if patterns == [] then "x"
    else
      var s := Stranger(patterns[1..]);
      if |s| <= |patterns[0]| then seq(|patterns[0]| + 1, _ => 'x') else s
  }

  lemma {:induction false} StrangerIsLong(patterns: seq<string>)
    ensures |Stranger(patterns)| > 0 && forall p | p in patterns :: |p| < |Stranger(patterns)|
    ensures forall c | c in Stranger(patterns) :: c == 'x'
  {
    if patterns != [] {
      StrangerIsLong(patterns[1..]);
      assert forall p | p in patterns :: p == patterns[0] || p in patterns[1..];
    }
  }

  lemma {:induction false} NormIsNoLonger(s: string)
    ensures |TrimLeft(s)| <= |s| && |TrimRight(s)| <= |s|
    ensures (forall c | c in s :: c == 'x') ==> TrimLeft(s) == s && TrimRight(s) == s
    decreases |s|
  {
    if s != [] {
      NormIsNoLonger(s[1..]);
      NormIsNoLonger(s[..|s| - 1]);
      assert s[0] in s && s[|s| - 1] in s;
    }
  }

  lemma StrangerIsUncovered(patterns: seq<string>, pattern: string)
    requires pattern in patterns && Norm(pattern) != "*"
    ensures !GlobMatch(pattern, Stranger(patterns))
  {
    var w := Stranger(patterns);
    StrangerIsLong(patterns);
    NormIsNoLonger(pattern);
    NormIsNoLonger(TrimLeft(pattern));
    NormIsNoLonger(w);
    var p, v := Norm(pattern), Norm(w);
    assert forall i | 0 <= i < |v| :: w[i] in w && v[i] == 'x';
    assert "*." <= p ==> p[1..][0] == '.';
  }

  /** DNS names stay within the first certificate's, over all chains, exactly when
      it has a common name or one of its names is the pattern that covers all. */
  lemma NamesNeverEscapeExactlyWhen(first: Cert)
    ensures (forall renewals | Chain(first, renewals) :: Covered(Last(first, renewals).dnsNames, NamesOf(first)))
            <==> first.commonName != "" || exists d | d in first.dnsNames :: CoreOf(d, "*")
  {
    hide Renews, CoreOf, SameUpToCase, Norm;
    CoveredByItself(NamesOf(first));
    assert forall d | d in first.dnsNames :: d in NamesOf(first);
    if first.commonName != "" {
      forall renewals | Chain(first, renewals) ensures Covered(Last(first, renewals).dnsNames, NamesOf(first)) {
        if renewals != [] {
          RenewalsNeverRename(first, renewals);
        }
      }
    } else if exists d | d in first.dnsNames :: CoreOf(d, "*") {
      var star :| star in first.dnsNames && CoreOf(star, "*");
      StarIsTheCore(star);
      assert forall n :: GlobMatch(star, n);
    } else {
      forall d | d in first.dnsNames ensures Norm(d) != "*" {
        StarIsTheCore(d);
      }
      EmptyNameEscapes(first);
    }
  }

  lemma StarIsTheCore(s: string)
    ensures Norm(s) == "*" <==> CoreOf(s, "*")
  {
    TrimMeaning(s, "*");
    if Norm(s) == "*" {
      assert Lower(TrimSpace(s)[0]) == '*';
      assert TrimSpace(s) == "*";
    }
  }

  lemma EmptyNameEscapes(first: Cert)
    requires first.commonName == "" && forall d | d in first.dnsNames :: Norm(d) != "*"
    ensures exists renewals :: Chain(first, renewals) && !Covered(Last(first, renewals).dnsNames, NamesOf(first))
  {
    hide Renews;
    var w := Stranger(NamesOf(first));
    var r0 := Ask(first, Least(first), w, []);
    var r1 := Ask(r0.issued, [w], w, [w]);
    AskRenews(first, Least(first), w, []);
    AskRenews(r0.issued, [w], w, [w]);
    assert [r0, r1][1..] == [r1] && [r1][1..] == [];
    assert Chain(r0.issued, [r1]);
    assert Chain(first, [r0, r1]);
    forall p | p in NamesOf(first) ensures !GlobMatch(p, w) {
      StrangerIsUncovered(NamesOf(first), p);
    }
    assert [w][0] == w && !MatchedByAny(NamesOf(first), w);
  }
}
