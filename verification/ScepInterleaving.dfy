/** Concurrent PKIOperations, internal/scep/handler.go: every request runs through
    check, authorization, issuer call and reply in its own time, and the steps of
    different requests interleave freely. Only the check touches shared state.
    What the authorizer and the issuer answer, and how long they take, is arbitrary. */
module ScepInterleaving {
  import opened ScepMessage
  import ScepHandler
  import Replay

  /** Accepted by the cache and not yet past the issuer, or over. */
  datatype Stage = Accepted | Called | Over

  /** A request in the handler; `check` is when, in the order of checks, it passed. */
  datatype InFlight = InFlight(req: ScepRequest, check: nat, stage: Stage)

  datatype Call = Call(req: ScepRequest, check: nat)

  /** `events` is the history of the replay cache, `calls` that of the issuer. */
  datatype System = System(events: seq<Replay.Event>, inFlight: map<nat, InFlight>, calls: seq<Call>)

  datatype Step =
    | Check(id: nat, req: ScepRequest, now: int)  // parsed, and checked against the cache
    | CallIssuer(id: nat)                         // allowed, and sent upstream
    | Finish(id: nat)                             // denied, failed, withheld or delivered

  const INITIAL := System([], map[], [])

  predicate Possible(s: System, step: Step) {
    match step
    case Check(id, _, _) => id !in s.inFlight
    case CallIssuer(id) => id in s.inFlight && s.inFlight[id].stage == Accepted
    case Finish(id) => id in s.inFlight && s.inFlight[id].stage != Over
  }

  function EventOf(cfg: ScepHandler.Config, req: ScepRequest, now: int): Replay.Event {
    Replay.Event(ScepHandler.ReplayKey(cfg, req.attributes), now)
  }

  function Next(cfg: ScepHandler.Config, s: System, step: Step): System
    requires Possible(s, step)
  {
    match step
    case Check(id, req, now) =>
      var e := EventOf(cfg, req, now);
      var accepted := Replay.Checked(cfg.replay, Replay.SeenAfter(cfg.replay, s.events), e.key, now).1;
      System(s.events + [e],
             s.inFlight[id := InFlight(req, |s.events|, if accepted then Accepted else Over)], s.calls)
    case CallIssuer(id) =>
      var f := s.inFlight[id];
      System(s.events, s.inFlight[id := f.(stage := Called)], s.calls + [Call(f.req, f.check)])
    case Finish(id) =>
      System(s.events, s.inFlight[id := s.inFlight[id].(stage := Over)], s.calls)
  }

  ghost predicate PossibleRun(cfg: ScepHandler.Config, s: System, run: seq<Step>)
    decreases |run|
  {
    run == [] || (Possible(s, run[0]) && PossibleRun(cfg, Next(cfg, s, run[0]), run[1..]))
  }

  function After(cfg: ScepHandler.Config, s: System, run: seq<Step>): System
    requires PossibleRun(cfg, s, run)
    decreases |run|
  {
    if run == [] then s else After(cfg, Next(cfg, s, run[0]), run[1..])
  }

  /** A request reaches the issuer if and only if the cache accepts its pair, and then
      under its own check. */
  lemma RequestCallsExactlyWhenAccepted(cfg: ScepHandler.Config, s: System, id: nat, req: ScepRequest, now: int)
    requires id !in s.inFlight
    ensures var run := [Check(id, req, now), CallIssuer(id)];
            && (PossibleRun(cfg, s, run) <==>
                Replay.Checked(cfg.replay, Replay.SeenAfter(cfg.replay, s.events),
                               ScepHandler.ReplayKey(cfg, req.attributes), now).1)
            && (PossibleRun(cfg, s, run) ==> After(cfg, s, run).calls == s.calls + [Call(req, |s.events|)])
  {
    hide Replay.Checked;
    var run := [Check(id, req, now), CallIssuer(id)];
    var s1 := Next(cfg, s, run[0]);
    assert run[1..] == [run[1]] && run[1..][1..] == [];
    assert PossibleRun(cfg, s1, run[1..]) <==> Possible(s1, run[1]);
    if PossibleRun(cfg, s, run) {
      assert After(cfg, s, run) == After(cfg, s1, run[1..]) == Next(cfg, s1, run[1]);
    }
  }

  /** `check` is an accepted check of this request's pair. */
  predicate CheckedIn(cfg: ScepHandler.Config, events: seq<Replay.Event>, req: ScepRequest, check: nat) {
    Replay.AcceptedAt(cfg.replay, events, check) && events[check].key == ScepHandler.ReplayKey(cfg, req.attributes)
  }

  /** Every issuer call, and every request that may still make one, goes back to an
      accepted check of its own. */
  ghost predicate Invariant(cfg: ScepHandler.Config, s: System) {
    && (forall i | 0 <= i < |s.calls| :: CheckedIn(cfg, s.events, s.calls[i].req, s.calls[i].check))
    && (forall i, j | 0 <= i < j < |s.calls| :: s.calls[i].check != s.calls[j].check)
    && (forall id | id in s.inFlight :: s.inFlight[id].check < |s.events|)
    && (forall id | id in s.inFlight && s.inFlight[id].stage == Accepted ::
          CheckedIn(cfg, s.events, s.inFlight[id].req, s.inFlight[id].check))
    && (forall id, i | id in s.inFlight && s.inFlight[id].stage == Accepted && 0 <= i < |s.calls| ::
          s.inFlight[id].check != s.calls[i].check)
    && (forall a, b | a in s.inFlight && b in s.inFlight && a != b :: s.inFlight[a].check != s.inFlight[b].check)
  }

  lemma CheckedInLater(cfg: ScepHandler.Config, events: seq<Replay.Event>, e: Replay.Event,
                       req: ScepRequest, check: nat)
    requires CheckedIn(cfg, events, req, check)
    ensures CheckedIn(cfg, events + [e], req, check)
  {
    assert (events + [e])[..check] == events[..check];
  }

  lemma InvariantStep(cfg: ScepHandler.Config, s: System, step: Step)
    requires Invariant(cfg, s) && Possible(s, step)
    ensures Invariant(cfg, Next(cfg, s, step))
  {
    hide CheckedIn;
    var s' := Next(cfg, s, step);
    if step.Check? {
      var e := EventOf(cfg, step.req, step.now);
      forall i | 0 <= i < |s.calls| ensures CheckedIn(cfg, s'.events, s.calls[i].req, s.calls[i].check) {
        CheckedInLater(cfg, s.events, e, s.calls[i].req, s.calls[i].check);
      }
      forall id | id in s'.inFlight && s'.inFlight[id].stage == Accepted
        ensures CheckedIn(cfg, s'.events, s'.inFlight[id].req, s'.inFlight[id].check)
      {
        if id != step.id {
          CheckedInLater(cfg, s.events, e, s.inFlight[id].req, s.inFlight[id].check);
        } else {
          NewlyChecked(cfg, s.events, step.req, step.now);
        }
      }
      forall i | 0 <= i < |s.calls| ensures s.calls[i].check < |s.events| {
        CheckIsPast(cfg, s.events, s.calls[i].req, s.calls[i].check);
      }
    }
  }

  lemma NewlyChecked(cfg: ScepHandler.Config, events: seq<Replay.Event>, req: ScepRequest, now: int)
    requires var e := EventOf(cfg, req, now);
             Replay.Checked(cfg.replay, Replay.SeenAfter(cfg.replay, events), e.key, now).1
    ensures CheckedIn(cfg, events + [EventOf(cfg, req, now)], req, |events|)
  {
    assert (events + [EventOf(cfg, req, now)])[..|events|] == events;
  }

  lemma CheckIsPast(cfg: ScepHandler.Config, events: seq<Replay.Event>, req: ScepRequest, check: nat)
    requires CheckedIn(cfg, events, req, check)
    ensures check < |events|
  {
  }

  lemma {:induction false} InvariantHolds(cfg: ScepHandler.Config, s: System, run: seq<Step>)
    requires PossibleRun(cfg, s, run) && Invariant(cfg, s)
    ensures Invariant(cfg, After(cfg, s, run))
    decreases |run|
  {
    if run != [] {
      InvariantStep(cfg, s, run[0]);
      InvariantHolds(cfg, Next(cfg, s, run[0]), run[1..]);
    }
  }

  /** Freshness under every interleaving and for any clock: two issuer calls for one
      transaction ID and nonce go back to two checks at least `ttl` apart, or an event
      between those checks dropped the first. Where the clock does not go back, that
      takes a flood of `maxSize` distinct pairs within one `ttl`. */
  lemma CallsAreFreshUnderInterleaving(cfg: ScepHandler.Config, run: seq<Step>, x: nat, y: nat)
    requires cfg.replay.Valid() && PossibleRun(cfg, INITIAL, run)
    requires var s := After(cfg, INITIAL, run);
             && x < |s.calls| && y < |s.calls| && x != y
             && ScepHandler.SamePair(s.calls[x].req.attributes, s.calls[y].req.attributes)
             && s.calls[x].check <= s.calls[y].check
    ensures var s := After(cfg, INITIAL, run);
            var (i, j) := (s.calls[x].check, s.calls[y].check);
            && i < j < |s.events|
            && (s.events[i].now + cfg.replay.ttl <= s.events[j].now
                || exists m | i < m < j ::
                     && Replay.DropsAt(cfg.replay, s.events, i, m)
                     && (Replay.ClearedAt(cfg.replay, s.events, m) ==> Replay.FloodAt(cfg.replay, s.events, m)))
            && (Replay.Monotone(s.events) ==>
                  s.events[i].now + cfg.replay.ttl <= s.events[j].now
                  || exists m | i < m < j ::
                       Replay.ClearedAt(cfg.replay, s.events, m) && Replay.FloodAt(cfg.replay, s.events, m))
  {
    InvariantHolds(cfg, INITIAL, run);
    var s := After(cfg, INITIAL, run);
    var i, j := s.calls[x].check, s.calls[y].check;
    assert CheckedIn(cfg, s.events, s.calls[x].req, i) && CheckedIn(cfg, s.events, s.calls[y].req, j);
    assert i != j;
    Replay.SecondAcceptNeedsTimeOrDrop(cfg.replay, s.events, i, j);
  }
}
