/** Whole runs of the authorizer over the store of one-time codes. */
module OneTimeCodes {
  import opened Common
  import opened Authz
  import opened Challenge
  import opened Pipeline

  /** An operator registers a code, or a request is authorized; `inventory` is the
      answer the request met. */
  datatype Event =
    | Registered(key: string, code: string, ttl: Duration, now: int)
    | Requested(req: Request, inventory: Result<Record, Failure>, now: int)

  function Answer(codes: Codes, e: Event): Option<bool>
    requires e.Requested?
  {
    Some(Validated(codes, ResolveIdentity(e.req), e.req.challengePassword, e.now).1)
  }

  function CodesNext(g: Gate, codes: Codes, e: Event): Codes {
    match e
    case Registered(key, code, ttl, now) => codes[key := Otp(code, now + ttl)]
    case Requested(req, inventory, now) => Spent(g, codes, req, inventory, now)
  }

  function CodesAfter(g: Gate, codes: Codes, run: seq<Event>): Codes
    decreases |run|
  {
    if run == [] then codes else CodesNext(g, CodesAfter(g, codes, run[..|run| - 1]), run[|run| - 1])
  }

  /** An allowed request that presented no client certificate. */
  predicate AllowedOnCode(g: Gate, codes: Codes, e: Event) {
    e.Requested? && e.req.clientCert.None? && Allows(g, e.req, e.inventory, Answer(codes, e))
  }

  function Registrations(run: seq<Event>): nat
    decreases |run|
  {
    if run == [] then 0
    else Registrations(run[..|run| - 1]) + if run[|run| - 1].Registered? then 1 else 0
  }

  function AllowedOnCodes(g: Gate, run: seq<Event>): nat
    decreases |run|
  {
    if run == [] then 0
    else
      var init := run[..|run| - 1];
      AllowedOnCodes(g, init) + if AllowedOnCode(g, CodesAfter(g, map[], init), run[|run| - 1]) then 1 else 0
  }

  /** Asking the validator takes at most one code, and takes one when it succeeds. */
  lemma ValidationTakesACode(codes: Codes, id: Identity, provided: string, now: int)
    ensures var (codes', ok) := Validated(codes, id, provided, now);
            (ok ==> provided != "") && |codes'| <= |codes| - if ok then 1 else 0
  {
    if provided != "" {
      var keys := CandidateKeys(id);
      TryKeysMeaning(codes, keys, provided, now);
      forall key | key in codes ensures |codes - {key}| == |codes| - 1 {
        assert (codes - {key}).Keys == codes.Keys - {key};
      }
    }
  }

  lemma AddingACode(codes: Codes, key: string, code: Otp)
    ensures |codes[key := code]| <= |codes| + 1
  {
    assert codes[key := code].Keys == codes.Keys + {key};
  }

  /** Conservation: with enrollment that proves nothing switched off, the requests
      allowed without a client certificate, together with the codes still unspent,
      never outnumber the codes registered - in any run, whatever the inventory
      answers and whatever is denied after its code was spent. */
  lemma {:induction false} CodesAreConserved(g: Gate, run: seq<Event>)
    requires !g.allowUnauthenticated
    ensures AllowedOnCodes(g, run) + |CodesAfter(g, map[], run)| <= Registrations(run)
    decreases |run|
  {
    if run != [] {
      var init, e := run[..|run| - 1], run[|run| - 1];
      CodesAreConserved(g, init);
      var codes := CodesAfter(g, map[], init);
      if e.Registered? {
        AddingACode(codes, e.key, Otp(e.code, e.now + e.ttl));
      } else {
        ValidationTakesACode(codes, ResolveIdentity(e.req), e.req.challengePassword, e.now);
      }
    }
  }

  /** The request `e` spends the code registered under `key`. */
  ghost predicate Spends(g: Gate, codes: Codes, e: Event, key: string) {
    && e.Requested? && Consults(g, e.req, e.inventory)
    && key in codes && Answer(codes, e) == Some(true)
    && CodesNext(g, codes, e) == codes - {key}
  }

  /** Event `i` of the run spends the code of `key`. */
  ghost predicate SpendsAt(g: Gate, run: seq<Event>, i: nat, key: string) {
    i < |run| && Spends(g, CodesAfter(g, map[], run[..i]), run[i], key)
  }

  lemma OnlyRegistrationAdds(g: Gate, codes: Codes, e: Event, key: string)
    requires key in CodesNext(g, codes, e)
    ensures if e.Registered? && e.key == key then CodesNext(g, codes, e)[key] == Otp(e.code, e.now + e.ttl)
            else key in codes && codes[key] == CodesNext(g, codes, e)[key] && !Spends(g, codes, e, key)
  {
    if e.Requested? && e.req.challengePassword != "" {
      TryKeysMeaning(codes, CandidateKeys(ResolveIdentity(e.req)), e.req.challengePassword, e.now);
    }
  }

  /** Event `i` registered `key`; no event since has registered or spent it. */
  ghost predicate LastRegistered(g: Gate, run: seq<Event>, i: nat, key: string) {
    && i < |run| && run[i].Registered? && run[i].key == key
    && forall j | i < j < |run| :: !(run[j].Registered? && run[j].key == key) && !SpendsAt(g, run, j, key)
  }

  /** Every code in the store is the last one registered under its key, unspent. */
  lemma {:induction false} CodesComeFromRegistrations(g: Gate, run: seq<Event>, key: string) returns (i: nat)
    requires key in CodesAfter(g, map[], run)
    ensures LastRegistered(g, run, i, key)
    ensures CodesAfter(g, map[], run)[key] == Otp(run[i].code, run[i].now + run[i].ttl)
    decreases |run|
  {
    var init, e := run[..|run| - 1], run[|run| - 1];
    OnlyRegistrationAdds(g, CodesAfter(g, map[], init), e, key);
    if e.Registered? && e.key == key {
      i := |run| - 1;
    } else {
      i := CodesComeFromRegistrations(g, init, key);
      forall j | i < j < |run| ensures !(run[j].Registered? && run[j].key == key) && !SpendsAt(g, run, j, key) {
        if j < |run| - 1 {
          assert init[j] == run[j] && init[..j] == run[..j];
          assert !SpendsAt(g, init, j, key);
        }
      }
    }
  }

  /** Whenever a request spends a code, that very code was registered for the device
      and under no empty key, has not expired, and has not been spent or replaced
      since: no code validates twice. The authenticated common name's code goes before
      the requested one's, and either before the serial's. */
  lemma SpentCodeWasRegisteredOnceAndInTime(g: Gate, run: seq<Event>, n: nat, key: string) returns (i: nat)
    requires SpendsAt(g, run, n, key)
    ensures LastRegistered(g, run[..n], i, key)
    ensures run[i].code == run[n].req.challengePassword != ""
    ensures run[n].now <= run[i].now + run[i].ttl
    ensures var id, codes := ResolveIdentity(run[n].req), CodesAfter(g, map[], run[..n]);
            HasCode(codes, key) &&
            key == if HasCode(codes, id.commonName) then id.commonName
                   else if HasCode(codes, id.requestedCN) then id.requestedCN
                   else id.serial
  {
    var codes, e := CodesAfter(g, map[], run[..n]), run[n];
    i := CodesComeFromRegistrations(g, run[..n], key);
    var id := ResolveIdentity(e.req);
    var keys := CandidateKeys(id);
    TryKeysMeaning(codes, keys, e.req.challengePassword, e.now);
    var k :| FirstRegistered(codes, keys, k) && codes[k].secret == e.req.challengePassword &&
             e.now <= codes[k].expires && CodesNext(g, codes, e) == codes - {k};
    assert k !in codes - {k};
    assert k == key;
    FirstRegisteredInOrder(codes, id, key);
  }

  /** Conversely each request allowed on a code alone has spent one. */
  lemma AllowedOnCodeSpendsOne(g: Gate, codes: Codes, e: Event)
    requires !g.allowUnauthenticated && AllowedOnCode(g, codes, e)
    ensures exists key :: Spends(g, codes, e, key)
  {
    TryKeysMeaning(codes, CandidateKeys(ResolveIdentity(e.req)), e.req.challengePassword, e.now);
    var key :| key in codes && CodesNext(g, codes, e) == codes - {key};
    assert Spends(g, codes, e, key);
  }

  // ---- Tightening the gate, over whole runs ----

  /** A tighter gate asks the validator more often, but then for an empty secret,
      which takes no code. */
  lemma SameCodesNext(strict: Gate, lax: Gate, codes: Codes, e: Event)
    requires Stricter(strict, lax)
    ensures CodesNext(strict, codes, e) == CodesNext(lax, codes, e)
  {
  }

  lemma {:induction false} SameCodesAfter(strict: Gate, lax: Gate, run: seq<Event>)
    requires Stricter(strict, lax)
    ensures CodesAfter(strict, map[], run) == CodesAfter(lax, map[], run)
    decreases |run|
  {
    if run != [] {
      SameCodesAfter(strict, lax, run[..|run| - 1]);
      SameCodesNext(strict, lax, CodesAfter(lax, map[], run[..|run| - 1]), run[|run| - 1]);
    }
  }

  /** Over any history of registrations and requests, a broker with the tighter gate
      holds the same codes as one with the looser, and whatever it allows the other
      would have allowed with the same role and constraints. */
  lemma TighteningIsMonotoneOverRuns(strict: Gate, lax: Gate, run: seq<Event>, e: Event)
    requires Stricter(strict, lax) && e.Requested?
    requires Allows(strict, e.req, e.inventory, Answer(CodesAfter(strict, map[], run), e))
    ensures Decide(lax, e.req, e.inventory, Answer(CodesAfter(lax, map[], run), e))
         == Decide(strict, e.req, e.inventory, Answer(CodesAfter(strict, map[], run), e))
  {
    SameCodesAfter(strict, lax, run);
    TighteningIsMonotone(strict, lax, e.req, e.inventory, Answer(CodesAfter(lax, map[], run), e));
  }
}
