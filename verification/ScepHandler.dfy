/** pkiOperation of internal/scep/handler.go, and issuance freshness over whole
    runs. Concurrent requests meet only at the replay cache, whose check is atomic,
    and at the code store, whose answers are arbitrary here; so a run lists the
    requests in the order of their checks. */
module ScepHandler {
  import opened Common
  import opened Bytes
  import opened Authz
  import opened Policy
  import opened VerifyIssued
  import opened Pipeline
  import opened Issuance
  import opened ScepMessage
  import Replay

  /** `hash` stands for hex-encoded SHA-256. */
  datatype Config = Config(
    gate: Gate, replay: Replay.Config, deviceRoots: bool, verifyIssued: bool, hash: bytes -> string)

  ghost predicate CollisionFree(hash: bytes -> string) {
    forall a, b :: hash(a) == hash(b) ==> a == b
  }

  /** Responder: every reply to a parsed request echoes its transaction ID and nonce;
      a success is encrypted to the request's own signer. */
  datatype Reply =
    | BadRequest
    | InternalError
    | Failure(transactionID: bytes, recipientNonce: bytes)
    | Success(transactionID: bytes, recipientNonce: bytes, cert: Cert, encryptedTo: Cert)

  datatype Handled = Handled(reply: Reply, call: Option<SignCall>)

  function ReplayKey(cfg: Config, a: Attributes): string {
    cfg.hash(PreImage(a.transactionID, a.senderNonce))
  }

  /** fail: a signed refusal without detail. */
  function Refuse(r: ScepRequest, replyBuilds: bool): Reply {
    if replyBuilds then Failure(r.attributes.transactionID, r.attributes.senderNonce) else InternalError
  }

  /** Everything after the freshness check. */
  function Process(cfg: Config, r: ScepRequest, w: World): Handled {
    var az := AuthzRequest(r);
    if !Allows(cfg.gate, az, w.inventory, w.answer) then Handled(Refuse(r, w.replyBuilds), None)
    else
      var d := Decide(cfg.gate, az, w.inventory, w.answer).value;
      var call := Some(SignCall(az, d.role, ToSignOptions(d.constraints)));
      if !w.issuer.Issued? then Handled(Refuse(r, w.replyBuilds), call)
      else if cfg.verifyIssued && !Accepted(w.issuer.cert, d.constraints) then Handled(Refuse(r, w.replyBuilds), call)
      else if !w.replyBuilds then Handled(InternalError, call)
      else
        Handled(Success(r.attributes.transactionID, r.attributes.senderNonce, w.issuer.cert, r.signer), call)
  }

  /** pkiOperation on a parsed request: the replay table afterwards, and the answer. */
  function Answered(cfg: Config, seen: map<string, int>, r: ScepRequest, w: World): (map<string, int>, Handled) {
    var (seen', isFresh) := Replay.Checked(cfg.replay, seen, ReplayKey(cfg, r.attributes), w.now);
    (seen', if isFresh then Process(cfg, r, w) else Handled(Refuse(r, w.replyBuilds), None))
  }

  /** The handler: its cache and its one-time codes are the state it changes. */
  class Handler {
    const cfg: Config
    const pipeline: Pipeline
    const cache: Replay.ReplayCache

    ghost predicate Valid() reads cache {
      cache.Valid() && cache.cfg == cfg.replay && pipeline.gate == cfg.gate
    }

    constructor (cfg: Config, pipeline: Pipeline, cache: Replay.ReplayCache)
      requires cache.Valid() && cache.cfg == cfg.replay && pipeline.gate == cfg.gate
      ensures Valid() && this.cfg == cfg && this.pipeline == pipeline && this.cache == cache
    {
      this.cfg, this.pipeline, this.cache := cfg, pipeline, cache;
    }

    /** pkiOperation, effect by effect. `issuer` is what the issuer would answer. The
        ghost result is the world the request met. */
    method PkiOperation(m: Message, now: int, issuer: IssuerReply, replyBuilds: bool)
      returns (h: Handled, ghost w: World)
      requires Valid()
      modifies cache, StoreOf(pipeline.challenge)
      ensures Valid()
      ensures w.now == now && w.issuer == issuer && w.replyBuilds == replyBuilds
      ensures Parse(cfg.deviceRoots, m).None? ==>
                h == Handled(BadRequest, None) && cache.seen == old(cache.seen)
      ensures Parse(cfg.deviceRoots, m).Some? ==>
                (cache.seen, h) == Answered(cfg, old(cache.seen), Parse(cfg.deviceRoots, m).value, w)
      ensures var parsed := Parse(cfg.deviceRoots, m);
              parsed.Some? &&
              Replay.Checked(cfg.replay, old(cache.seen), ReplayKey(cfg, parsed.value.attributes), now).1 ==>
                var id := ResolveIdentity(AuthzRequest(parsed.value));
                && InventoryAnswers(pipeline.inventory, id, w.inventory)
                && w.answer == old(AnswerOf(pipeline.challenge, id, parsed.value.challenge, now))
      ensures pipeline.challenge.OneTime? ==>
                var parsed, codes := Parse(cfg.deviceRoots, m), old(pipeline.challenge.store.codes);
                var seen := old(cache.seen);
                pipeline.challenge.store.codes ==
                  if parsed.Some? && Replay.Checked(cfg.replay, seen, ReplayKey(cfg, parsed.value.attributes), now).1
                  then Spent(cfg.gate, codes, AuthzRequest(parsed.value), w.inventory, now) else codes
    {
      hide Accepted, Build, Parse, AnswerOf, Spent, PreImage, ResolveIdentity, Replay.Checked;
      w := World(now, Err(InventoryFailure), None, issuer, replyBuilds);
      var parsed := Parse(cfg.deviceRoots, m);
      if parsed.None? {
        return Handled(BadRequest, None), w;
      }
      var r := parsed.value;
      OnlyAnchoredSignersAreIdentities(cfg.deviceRoots, m);
      var isFresh := cache.Check(ReplayKey(cfg, r.attributes), now);
      if !isFresh {
        return Handled(Refuse(r, replyBuilds), None), w;
      }
      var az := AuthzRequest(r);
      ghost var answer := AnswerOf(pipeline.challenge, ResolveIdentity(az), az.challengePassword, now);
      var decided;
      ghost var found;
      decided, found := Authorize(pipeline, az, now);
      w := World(now, found, answer, issuer, replyBuilds);
      if decided.Err? || !decided.value.allow {
        return Handled(Refuse(r, replyBuilds), None), w;
      }
      var d := decided.value;
      var call := Some(SignCall(az, d.role, ToSignOptions(d.constraints)));
      if !issuer.Issued? {
        return Handled(Refuse(r, replyBuilds), call), w;
      }
      if cfg.verifyIssued {
        var ok := VerifyIssued.VerifyIssued(Some(issuer.cert), d.constraints);
        if !ok {
          return Handled(Refuse(r, replyBuilds), call), w;
        }
      }
      if !replyBuilds {
        return Handled(InternalError, call), w;
      }
      return Handled(Success(r.attributes.transactionID, r.attributes.senderNonce, issuer.cert, r.signer), call), w;
    }
  }

  // ---- What is released ----

  /** A request the cache finds fresh and the pipeline allows. */
  predicate Proceeds(cfg: Config, seen: map<string, int>, r: ScepRequest, w: World) {
    && Replay.Checked(cfg.replay, seen, ReplayKey(cfg, r.attributes), w.now).1
    && Allows(cfg.gate, AuthzRequest(r), w.inventory, w.answer)
  }

  /** SCEP calls the issuer exactly for fresh requests the pipeline allows, and
      delivers exactly when what came back decodes, passes the check if there is one,
      and can be sealed. What it delivers is what came back, encrypted to the
      request's own signer; answers carry the request's own ID and nonce. */
  lemma DeliveredExactlyWhen(cfg: Config, seen: map<string, int>, r: ScepRequest, w: World)
    ensures var h := Answered(cfg, seen, r, w).1;
            && (h.call.Some? <==> Proceeds(cfg, seen, r, w))
            && (h.call.Some? ==> h.call.value.req == AuthzRequest(r))
            && (h.reply.Success? <==>
                Proceeds(cfg, seen, r, w) && w.issuer.Issued? && w.replyBuilds &&
                (cfg.verifyIssued ==>
                   Accepted(w.issuer.cert, Decide(cfg.gate, AuthzRequest(r), w.inventory, w.answer).value.constraints)))
            && (h.reply.Success? ==>
                h.reply == Success(r.attributes.transactionID, r.attributes.senderNonce, w.issuer.cert, r.signer))
            && (!h.reply.Success? && w.replyBuilds ==>
                  h.reply == Failure(r.attributes.transactionID, r.attributes.senderNonce))
            && (!h.reply.Success? && !w.replyBuilds ==> h.reply.InternalError?)
  {
    hide Accepted;
    hide Decide;
  }

  /** Every call SCEP makes carries the request's own CSR and challenge and asks for
      just what was decided, so it stays within the authority. */
  lemma CallsCarryTheDecision(cfg: Config, seen: map<string, int>, r: ScepRequest, w: World)
    requires Answered(cfg, seen, r, w).1.call.Some?
    ensures var call := Answered(cfg, seen, r, w).1.call.value;
            && call.req.csr == Some(r.csr) && call.req.challengePassword == r.challenge && call.req.estLabel == ""
            && CarriesTheDecision(cfg.gate, w.inventory, call)
  {
    hide Decide, CarriesTheDecision, Accepted;
    AllowedCallCarriesTheDecision(cfg.gate, AuthzRequest(r), w.inventory, w.answer);
  }

  /** With the check wired in, every certificate SCEP releases is within the bound,
      whatever the issuer returned; it goes encrypted to the request's own signer,
      with the request's transaction ID and nonce. */
  lemma ReleasedIsWithinBound(cfg: Config, seen: map<string, int>, r: ScepRequest, w: World)
    requires cfg.verifyIssued && cfg.gate.constraints.Some? && !cfg.gate.constraints.value.mode.CSRMode?
    requires Answered(cfg, seen, r, w).1.reply.Success?
    ensures var reply := Answered(cfg, seen, r, w).1.reply;
            && w.inventory.Ok? && w.issuer == Issued(reply.cert)
            && WithinBound(cfg.gate.constraints.value, ResolveIdentity(AuthzRequest(r)), w.inventory.value, reply.cert)
            && reply.encryptedTo == r.signer
            && reply.transactionID == r.attributes.transactionID && reply.recipientNonce == r.attributes.senderNonce
  {
    hide Accepted, WithinBound, Answered;
    var az := AuthzRequest(r);
    DeliveredExactlyWhen(cfg, seen, r, w);
    AllowedExactlyWhen(cfg.gate, az, w.inventory, w.answer);
    CheckedCertificateIsWithinBound(cfg.gate, az, w.inventory, w.answer, w.issuer.cert);
  }

  /** Every upstream renewal was signed by a certificate verified against the device
      anchor, and no first request's signer ever reached the pipeline. */
  lemma RenewalCallsAreAnchored(cfg: Config, seen: map<string, int>, m: Message, w: World)
    requires Parse(cfg.deviceRoots, m).Some?
    requires Answered(cfg, seen, Parse(cfg.deviceRoots, m).value, w).1.call.Some?
    ensures var call := Answered(cfg, seen, Parse(cfg.deviceRoots, m).value, w).1.call.value;
            if call.req.operation.SimpleReenroll?
            then m.anchored.Some? && call.req.clientCert == Some(m.anchored.value.signer)
            else call.req.clientCert.None? && (cfg.gate.allowUnauthenticated || call.req.challengePassword != "")
  {
    hide Answered, Parse;
    OnlyAnchoredSignersAreIdentities(cfg.deviceRoots, m);
    var r := Parse(cfg.deviceRoots, m).value;
    DeliveredExactlyWhen(cfg, seen, r, w);
    AllowedExactlyWhen(cfg.gate, AuthzRequest(r), w.inventory, w.answer);
  }

  // ---- Freshness over whole runs ----

  datatype Arrival = Arrival(req: ScepRequest, world: World)

  /** The run of the replay cache beneath a run of requests. */
  function CacheRun(cfg: Config, run: seq<Arrival>): (events: seq<Replay.Event>)
    ensures |events| == |run|
  {
    seq(|run|, i requires 0 <= i < |run| =>
      Replay.Event(ReplayKey(cfg, run[i].req.attributes), run[i].world.now))
  }

  /** The answer to request `i` of the run. */
  function AnswerAt(cfg: Config, run: seq<Arrival>, i: nat): Handled
    requires i < |run|
  {
    Answered(cfg, Replay.SeenBefore(cfg.replay, CacheRun(cfg, run), i), run[i].req, run[i].world).1
  }

  predicate SignsAt(cfg: Config, run: seq<Arrival>, i: nat) {
    i < |run| && AnswerAt(cfg, run, i).call.Some?
  }

  predicate SamePair(a: Attributes, b: Attributes) {
    a.transactionID == b.transactionID && a.senderNonce == b.senderNonce
  }

  /** Requests that came out of Parse. */
  predicate WellFormedRun(run: seq<Arrival>) {
    forall a | a in run :: WellFormed(a.req.attributes)
  }

  lemma SameKeyIsSamePair(cfg: Config, a: Attributes, b: Attributes)
    requires CollisionFree(cfg.hash) && WellFormed(a) && WellFormed(b)
    ensures ReplayKey(cfg, a) == ReplayKey(cfg, b) <==> SamePair(a, b)
  {
    if ReplayKey(cfg, a) == ReplayKey(cfg, b) {
      PreImageIsInjective(a.transactionID, a.senderNonce, b.transactionID, b.senderNonce);
    }
  }

  /** Issuance freshness, for any clock: whatever fails downstream, two upstream calls
      for one transaction ID and nonce are at least `ttl` apart, or an event in between
      dropped the first from the table. Where the clock does not go back, that takes a
      flood of at least `maxSize` distinct pairs inside one `ttl`. */
  lemma IssuanceIsFresh(cfg: Config, run: seq<Arrival>, i: nat, j: nat)
    requires cfg.replay.Valid()
    requires i < j && SignsAt(cfg, run, i) && SignsAt(cfg, run, j)
    requires SamePair(run[i].req.attributes, run[j].req.attributes)
    ensures var events := CacheRun(cfg, run);
            && (run[i].world.now + cfg.replay.ttl <= run[j].world.now
                || exists m | i < m < j ::
                     && Replay.DropsAt(cfg.replay, events, i, m)
                     && (Replay.ClearedAt(cfg.replay, events, m) ==> Replay.FloodAt(cfg.replay, events, m)))
            && (Replay.Monotone(events) ==>
                  run[i].world.now + cfg.replay.ttl <= run[j].world.now
                  || exists m | i < m < j ::
                       Replay.ClearedAt(cfg.replay, events, m) && Replay.FloodAt(cfg.replay, events, m))
  {
    Replay.SecondAcceptNeedsTimeOrDrop(cfg.replay, CacheRun(cfg, run), i, j);
  }

  lemma SameKeysAreSamePairs(cfg: Config, run: seq<Arrival>, j: nat)
    requires CollisionFree(cfg.hash) && WellFormedRun(run) && j < |run|
    ensures forall i | 0 <= i < j ::
              CacheRun(cfg, run)[i].key == CacheRun(cfg, run)[j].key
              <==> SamePair(run[i].req.attributes, run[j].req.attributes)
  {
    forall i | 0 <= i < j
      ensures CacheRun(cfg, run)[i].key == CacheRun(cfg, run)[j].key
              <==> SamePair(run[i].req.attributes, run[j].req.attributes)
    {
      assert run[i] in run && run[j] in run;
      SameKeyIsSamePair(cfg, run[i].req.attributes, run[j].req.attributes);
    }
  }

  /** A request is refused as a replay, for any clock, exactly when its own pair was
      accepted before, is unexpired, and has not been dropped since: another client's
      pair, however chosen, can never stand in for it. Where the clock does not go
      back, only a clear drops it. */
  lemma ReplayedExactlyWhenPairWasSeen(cfg: Config, run: seq<Arrival>, j: nat)
    requires cfg.replay.Valid() && CollisionFree(cfg.hash) && WellFormedRun(run) && j < |run|
    ensures var events := CacheRun(cfg, run);
            && (!Replay.AcceptedAt(cfg.replay, events, j) <==>
                exists i | 0 <= i < j ::
                  && Replay.AcceptedAt(cfg.replay, events, i) && SamePair(run[i].req.attributes, run[j].req.attributes)
                  && run[j].world.now < run[i].world.now + cfg.replay.ttl
                  && forall m | i < m < j :: !Replay.DropsAt(cfg.replay, events, i, m))
            && (Replay.Monotone(events) ==>
                  (!Replay.AcceptedAt(cfg.replay, events, j) <==>
                   exists i | 0 <= i < j ::
                     && Replay.AcceptedAt(cfg.replay, events, i)
                     && SamePair(run[i].req.attributes, run[j].req.attributes)
                     && run[j].world.now < run[i].world.now + cfg.replay.ttl
                     && forall m | i < m < j :: !Replay.ClearedAt(cfg.replay, events, m)))
  {
    var events := CacheRun(cfg, run);
    SameKeysAreSamePairs(cfg, run, j);
    Replay.RefusedExactlyWhenAcceptedAndNotDropped(cfg.replay, events, j);
    if Replay.Monotone(events) {
      Replay.RefusedExactlyWhenRecentlyAccepted(cfg.replay, events, j);
    }
  }
}
