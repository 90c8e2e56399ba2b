/** Limiter.Middleware and acquire of internal/limits/limits.go, as the steps of
    concurrent requests: per-client limit, global limit, concurrency slot, handler.

    Waiting for a slot, its timeout and the request's cancellation are steps that
    may happen at any moment; HTTP replies are not part of this model. */
module Middleware {
  import opened Common
  import opened KeyedLimiter
  import opened LimiterRuns

  datatype Phase = AtGlobal | Waiting | Running | Done

  datatype Conn = Conn(client: string, phase: Phase)

  /** `slots` is None when MaxConcurrent is negative and no semaphore exists. Either
      limiter may be switched off. */
  datatype Setup = Setup(perClient: Config, global: Config, slots: Option<nat>)
  {
    predicate Valid() { 1 <= perClient.maxKeys && global.maxKeys == 1 }
  }

  /** `held` is the number of tokens in the semaphore channel. */
  datatype System = System(clients: Table, global: Table, conns: map<nat, Conn>, held: nat)

  datatype Step =
    | Arrive(id: nat, e: Access)  // the per-client limiter answers
    | Draw(id: nat, e: Access)    // the global limiter answers
    | Acquire(id: nat)            // a slot is taken
    | Shed(id: nat)               // timed out or cancelled while waiting
    | Finish(id: nat)             // the handler returns and its slot is released

  const INITIAL := System(map[], map[], map[], 0)

  predicate InPhase(s: System, id: nat, phase: Phase) {
    id in s.conns && s.conns[id].phase == phase
  }

  ghost predicate Possible(setup: Setup, s: System, step: Step) {
    match step
    case Arrive(id, e) => id !in s.conns && Legal(setup.perClient, s.clients, e)
    case Draw(id, e) => InPhase(s, id, AtGlobal) && e.key == "" && Legal(setup.global, s.global, e)
    case Acquire(id) => InPhase(s, id, Waiting) && (setup.slots.Some? ==> s.held < setup.slots.value)
    case Shed(id) => InPhase(s, id, Waiting) && setup.slots.Some?
    case Finish(id) => InPhase(s, id, Running) && (setup.slots.Some? ==> 0 < s.held)
  }

  function MoveTo(s: System, id: nat, phase: Phase): map<nat, Conn> {
    if id in s.conns then s.conns[id := s.conns[id].(phase := phase)] else s.conns
  }

  function Next(setup: Setup, s: System, step: Step): System {
    match step
    case Arrive(id, e) =>
      var (clients', ok) := Allowed(setup.perClient, s.clients, e);
      s.(clients := clients', conns := s.conns[id := Conn(e.key, if ok then AtGlobal else Done)])
    case Draw(id, e) =>
      var (global', ok) := Allowed(setup.global, s.global, e);
      s.(global := global', conns := MoveTo(s, id, if ok then Waiting else Done))
    case Acquire(id) =>
      s.(conns := MoveTo(s, id, Running), held := if setup.slots.Some? then s.held + 1 else s.held)
    case Shed(id) =>
      s.(conns := MoveTo(s, id, Done))
    case Finish(id) =>
      s.(conns := MoveTo(s, id, Done), held := if setup.slots.Some? && 0 < s.held then s.held - 1 else s.held)
  }

  ghost predicate PossibleRun(setup: Setup, s: System, run: seq<Step>)
    decreases |run|
  {
    run == [] || (Possible(setup, s, run[0]) && PossibleRun(setup, Next(setup, s, run[0]), run[1..]))
  }

  function After(setup: Setup, s: System, run: seq<Step>): System
    decreases |run|
  {
    if run == [] then s else After(setup, Next(setup, s, run[0]), run[1..])
  }

  // ---- Slots ----

  function RunningIds(s: System): set<nat> {
    set id | id in s.conns && s.conns[id].phase == Running
  }

  ghost predicate SlotInvariant(setup: Setup, s: System) {
    setup.slots.Some? ==> s.held == |RunningIds(s)| <= setup.slots.value
  }

  lemma RunningIdsStep(setup: Setup, s: System, step: Step)
    requires Possible(setup, s, step)
    ensures RunningIds(Next(setup, s, step)) ==
            match step
            case Acquire(id) => RunningIds(s) + {id}
            case Finish(id) => RunningIds(s) - {id}
            case _ => RunningIds(s)
  {
    hide Allowed;
    hide Legal;
  }

  lemma SlotStep(setup: Setup, s: System, step: Step)
    requires SlotInvariant(setup, s) && Possible(setup, s, step)
    ensures SlotInvariant(setup, Next(setup, s, step))
  {
    hide Allowed;
    hide Legal;
    RunningIdsStep(setup, s, step);
  }

  /** In every run the handlers running are exactly the slots held, and never more
      than MaxConcurrent; a finishing handler always has a slot to give back. */
  lemma {:induction false} RunningHandlersHoldTheSlots(setup: Setup, s: System, run: seq<Step>)
    requires PossibleRun(setup, s, run) && SlotInvariant(setup, s)
    ensures SlotInvariant(setup, After(setup, s, run))
    decreases |run|
  {
    if run != [] {
      SlotStep(setup, s, run[0]);
      RunningHandlersHoldTheSlots(setup, Next(setup, s, run[0]), run[1..]);
    }
  }

  /** A running handler never finds the semaphore empty when it releases. */
  lemma ReleaseNeverBlocks(setup: Setup, s: System, id: nat)
    requires SlotInvariant(setup, s) && InPhase(s, id, Running)
    ensures Possible(setup, s, Finish(id))
  {
    assert id in RunningIds(s);
  }

  /** A waiting request may take a slot, at any time, exactly when fewer handlers are
      running than there are slots. */
  lemma SlotIsTakenExactlyWhenFree(setup: Setup, s: System, id: nat)
    requires SlotInvariant(setup, s) && InPhase(s, id, Waiting)
    ensures Possible(setup, s, Acquire(id)) <==> (setup.slots.Some? ==> |RunningIds(s)| < setup.slots.value)
  {
  }

  /** A request runs, under whatever load, exactly when both limiters admit it and a
      slot is free for it. */
  lemma RequestRunsExactlyWhen(setup: Setup, s: System, id: nat, e: Access, g: Access)
    requires SlotInvariant(setup, s) && id !in s.conns
    requires Legal(setup.perClient, s.clients, e) && g.key == "" && Legal(setup.global, s.global, g)
    ensures var run := [Arrive(id, e), Draw(id, g), Acquire(id)];
            && (PossibleRun(setup, s, run) <==>
                && Allowed(setup.perClient, s.clients, e).1
                && Allowed(setup.global, s.global, g).1
                && (setup.slots.Some? ==> |RunningIds(s)| < setup.slots.value))
            && (PossibleRun(setup, s, run) ==> InPhase(After(setup, s, run), id, Running))
  {
    hide Allowed, Legal;
    var run := [Arrive(id, e), Draw(id, g), Acquire(id)];
    var s1 := Next(setup, s, run[0]);
    var s2 := Next(setup, s1, run[1]);
    var s3 := Next(setup, s2, run[2]);
    var run1, run2 := run[1..], run[1..][1..];
    assert run1 == [run[1], run[2]] && run2 == [run[2]] && run2[1..] == [];
    assert Possible(setup, s, run[0]);
    assert PossibleRun(setup, s2, run2) <==> Possible(setup, s2, run[2]);
    assert After(setup, s2, run2) == s3;
    assert PossibleRun(setup, s1, run1) <==> Possible(setup, s1, run[1]) && Possible(setup, s2, run[2]);
    RunningIdsStep(setup, s, run[0]);
  }

  function Acquires(run: seq<Step>, id: nat): nat
    decreases |run|
  {
    if run == [] then 0 else (if run[0] == Acquire(id) then 1 else 0) + Acquires(run[1..], id)
  }

  function Releases(run: seq<Step>, id: nat): nat
    decreases |run|
  {
    if run == [] then 0 else (if run[0] == Finish(id) then 1 else 0) + Releases(run[1..], id)
  }

  /** How many slots a request may still acquire. */
  function Chances(s: System, id: nat): nat {
    if id !in s.conns || s.conns[id].phase in {AtGlobal, Waiting} then 1 else 0
  }

  lemma {:induction false} SlotAccount(setup: Setup, s: System, run: seq<Step>, id: nat)
    requires PossibleRun(setup, s, run)
    ensures var end := After(setup, s, run);
            && Acquires(run, id) + (if InPhase(s, id, Running) then 1 else 0)
               == Releases(run, id) + (if InPhase(end, id, Running) then 1 else 0)
            && Acquires(run, id) + Chances(end, id) <= Chances(s, id)
    decreases |run|
  {
    if run != [] {
      hide Allowed;
      hide Legal;
      SlotAccount(setup, Next(setup, s, run[0]), run[1..], id);
    }
  }

  /** Each request acquires at most one slot, and once it is no longer running it
      has released exactly the slots it acquired. */
  lemma EverySlotIsReleasedOnce(setup: Setup, run: seq<Step>, id: nat)
    requires PossibleRun(setup, INITIAL, run)
    ensures Releases(run, id) <= Acquires(run, id) <= 1
    ensures !InPhase(After(setup, INITIAL, run), id, Running) ==> Releases(run, id) == Acquires(run, id)
  {
    SlotAccount(setup, INITIAL, run, id);
  }

  // ---- The global bucket ----

  /** The accesses of the per-client limiter, in order. */
  function ClientAccesses(run: seq<Step>): seq<Access>
    decreases |run|
  {
    if run == [] then []
    else (if run[0].Arrive? then [run[0].e] else []) + ClientAccesses(run[1..])
  }

  /** How often requests of `client` drew on the global bucket. */
  function DrawsOf(setup: Setup, s: System, run: seq<Step>, client: string): nat
    decreases |run|
  {
    if run == [] then 0
    else
      (if run[0].Draw? && run[0].id in s.conns && s.conns[run[0].id].client == client then 1 else 0)
      + DrawsOf(setup, Next(setup, s, run[0]), run[1..], client)
  }

  /** Requests of `client` that its own bucket admitted and that have yet to draw. */
  function Pending(s: System, client: string): set<nat> {
    set id | id in s.conns && s.conns[id] == Conn(client, AtGlobal)
  }

  lemma PendingStep(setup: Setup, s: System, step: Step, client: string)
    requires Possible(setup, s, step)
    ensures Pending(Next(setup, s, step), client) ==
            match step
            case Arrive(id, e) =>
              if e.key == client && Allowed(setup.perClient, s.clients, e).1
              then Pending(s, client) + {id} else Pending(s, client)
            case Draw(id, e) => Pending(s, client) - {id}
            case _ => Pending(s, client)
  {
    hide Allowed;
    hide Legal;
  }

  lemma {:induction false} DrawAccount(setup: Setup, s: System, run: seq<Step>, client: string)
    requires PossibleRun(setup, s, run)
    ensures LegalRun(setup.perClient, s.clients, ClientAccesses(run))
    ensures DrawsOf(setup, s, run, client) + |Pending(After(setup, s, run), client)|
            == Admitted(setup.perClient, s.clients, ClientAccesses(run), client) + |Pending(s, client)|
    decreases |run|
  {
    if run != [] {
      hide Allowed;
      hide Legal;
      var step := run[0];
      PendingStep(setup, s, step, client);
      DrawAccount(setup, Next(setup, s, step), run[1..], client);
      if step.Arrive? {
        assert ClientAccesses(run)[1..] == ClientAccesses(run[1..]);
        assert step.id !in Pending(s, client);
      } else {
        assert ClientAccesses(run) == ClientAccesses(run[1..]);
        if step.Draw? {
          assert step.id in Pending(s, client) <==> s.conns[step.id].client == client;
        }
      }
    }
  }

  /** A flood is charged to its own budget: whatever the interleaving and the clock,
      a client draws on the global bucket no more often than its own bucket admitted
      it, so its draws obey its own admission bound. With the per-client limiter off
      only its number of requests bounds them. */
  lemma {:induction false} GlobalDrawsObeyTheClientsOwnBound(setup: Setup, run: seq<Step>, client: string, start: real)
    requires setup.Valid() && PossibleRun(setup, INITIAL, run)
    ensures DrawsOf(setup, INITIAL, run, client) <= Requests(ClientAccesses(run), client)
    ensures var accesses, p := ClientAccesses(run), setup.perClient.params;
            p.Enabled() ==>
              DrawsOf(setup, INITIAL, run, client) as real
              <= (1 + ForcedEvictions(setup.perClient, map[], accesses, client)) as real * p.burst
                 + p.rate * Rise(start, accesses)
  {
    hide Admitted, ForcedEvictions, DrawsOf, LegalRun, PossibleRun, After, Rise, ClientAccesses, Requests;
    DrawAccount(setup, INITIAL, run, client);
    AdmittedAtMostRequests(setup.perClient, map[], ClientAccesses(run), client);
    if setup.perClient.params.Enabled() {
      AdmissionBound(setup.perClient, map[], start, ClientAccesses(run), client);
    }
  }

  // ---- The backstop ----

  function GlobalAccesses(run: seq<Step>): seq<Access>
    decreases |run|
  {
    if run == [] then []
    else (if run[0].Draw? then [run[0].e] else []) + GlobalAccesses(run[1..])
  }

  /** How many handlers started. */
  function Started(run: seq<Step>): nat
    decreases |run|
  {
    if run == [] then 0 else (if run[0].Acquire? then 1 else 0) + Started(run[1..])
  }

  /** Requests both limits admitted and that wait for a slot. */
  function WaitingIds(s: System): set<nat> {
    set id | id in s.conns && s.conns[id].phase == Waiting
  }

  lemma WaitingIdsStep(setup: Setup, s: System, step: Step)
    requires Possible(setup, s, step)
    ensures WaitingIds(Next(setup, s, step)) ==
            match step
            case Draw(id, e) =>
              if Allowed(setup.global, s.global, e).1 then WaitingIds(s) + {id} else WaitingIds(s)
            case Acquire(id) => WaitingIds(s) - {id}
            case Shed(id) => WaitingIds(s) - {id}
            case _ => WaitingIds(s)
  {
    hide Allowed;
    hide Legal;
  }

  lemma {:induction false} StartAccount(setup: Setup, s: System, run: seq<Step>)
    requires PossibleRun(setup, s, run)
    ensures LegalRun(setup.global, s.global, GlobalAccesses(run))
    ensures forall e | e in GlobalAccesses(run) :: e.key == ""
    ensures Started(run) + |WaitingIds(After(setup, s, run))|
            <= Admitted(setup.global, s.global, GlobalAccesses(run), "") + |WaitingIds(s)|
    decreases |run|
  {
    if run != [] {
      hide Allowed;
      hide Legal;
      var step := run[0];
      WaitingIdsStep(setup, s, step);
      StartAccount(setup, Next(setup, s, step), run[1..]);
      if step.Draw? {
        assert GlobalAccesses(run)[1..] == GlobalAccesses(run[1..]);
        assert step.id !in WaitingIds(s);
      } else {
        assert GlobalAccesses(run) == GlobalAccesses(run[1..]);
        if step.Acquire? || step.Shed? {
          assert step.id in WaitingIds(s);
        }
      }
    }
  }

  /** The one bucket of the global limiter is never evicted. */
  lemma {:induction false} GlobalNeverEvicts(cfg: Config, t: Table, run: seq<Access>)
    requires cfg.Valid() && (t == map[] || t.Keys == {""}) && forall e | e in run :: e.key == ""
    ensures ForcedEvictions(cfg, t, run, "") == 0
    decreases |run|
  {
    if run != [] {
      var e := run[0];
      assert e in run;
      assert !NeedsRoom(cfg, t, "") && Evicted(cfg, t, e) == {};
      assert Allowed(cfg, t, e).0.Keys == t.Keys + {""};
      GlobalNeverEvicts(cfg, Allowed(cfg, t, e).0, run[1..]);
    }
  }

  /** However many clients there are, however they interleave and whatever the clock,
      no more handlers start than one global burst plus the global rate times the
      rise of the clock. With the global limiter off only the draws bound them. */
  lemma HandlersStartedObeyTheGlobalBound(setup: Setup, run: seq<Step>, start: real)
    requires setup.Valid() && PossibleRun(setup, INITIAL, run)
    ensures Started(run) <= Requests(GlobalAccesses(run), "")
    ensures var p := setup.global.params;
            p.Enabled() ==> Started(run) as real <= p.burst + p.rate * Rise(start, GlobalAccesses(run))
  {
    hide Admitted, ForcedEvictions, LegalRun, PossibleRun, After, Rise, GlobalAccesses, Requests;
    var accesses := GlobalAccesses(run);
    StartAccount(setup, INITIAL, run);
    AdmittedAtMostRequests(setup.global, map[], accesses, "");
    if setup.global.params.Enabled() {
      GlobalNeverEvicts(setup.global, map[], accesses);
      AdmissionBound(setup.global, map[], start, accesses, "");
    }
  }
}
