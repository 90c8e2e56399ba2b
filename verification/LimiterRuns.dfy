/** Whole runs of the bounded limiter: what bounding the table costs, and to whom. */
module LimiterRuns {
  import opened Common
  import opened TokenBucket
  import opened KeyedLimiter

  /** Every access of the run makes a legal eviction pass in the table it meets. */
  ghost predicate LegalRun(cfg: Config, t: Table, run: seq<Access>)
    decreases |run|
  {
    run == [] || (Legal(cfg, t, run[0]) && LegalRun(cfg, Allowed(cfg, t, run[0]).0, run[1..]))
  }

  function TableAfter(cfg: Config, t: Table, run: seq<Access>): Table
    decreases |run|
  {
    if run == [] then t else TableAfter(cfg, Allowed(cfg, t, run[0]).0, run[1..])
  }

  /** Admissions of `key` over the run. */
  function Admitted(cfg: Config, t: Table, run: seq<Access>, key: string): nat
    decreases |run|
  {
    if run == [] then 0
    else
      var (t', ok) := Allowed(cfg, t, run[0]);
      (if run[0].key == key && ok then 1 else 0) + Admitted(cfg, t', run[1..], key)
  }

  /** The same count for the limiter that never evicts. */
  function AdmittedUnbounded(p: Params, u: Table, run: seq<Access>, key: string): nat
    decreases |run|
  {
    if run == [] then 0
    else
      var (u', ok) := Unbounded(p, u, run[0].key, run[0].now);
      (if run[0].key == key && ok then 1 else 0) + AdmittedUnbounded(p, u', run[1..], key)
  }

  /** An eviction of `key` while its bucket was not idle. */
  predicate ForcedOut(cfg: Config, t: Table, e: Access, key: string) {
    key in Evicted(cfg, t, e) && key in t && !Idle(cfg.params, t[key], e.now)
  }

  function ForcedEvictions(cfg: Config, t: Table, run: seq<Access>, key: string): nat
    decreases |run|
  {
    if run == [] then 0
    else
      (if ForcedOut(cfg, t, run[0], key) then 1 else 0)
      + ForcedEvictions(cfg, Allowed(cfg, t, run[0]).0, run[1..], key)
  }

  /** The answers given to `key`, in order. */
  function Answers(cfg: Config, t: Table, run: seq<Access>, key: string): seq<bool>
    decreases |run|
  {
    if run == [] then []
    else
      var (t', ok) := Allowed(cfg, t, run[0]);
      (if run[0].key == key then [ok] else []) + Answers(cfg, t', run[1..], key)
  }

  function AnswersUnbounded(p: Params, u: Table, run: seq<Access>, key: string): seq<bool>
    decreases |run|
  {
    if run == [] then []
    else
      var (u', ok) := Unbounded(p, u, run[0].key, run[0].now);
      (if run[0].key == key then [ok] else []) + AnswersUnbounded(p, u', run[1..], key)
  }

  /** The clock never reads less than `start`, nor less than it read before. */
  predicate MonotoneFrom(start: real, run: seq<Access>)
    decreases |run|
  {
    run == [] || (start <= run[0].now && MonotoneFrom(run[0].now, run[1..]))
  }

  function EndOf(start: real, run: seq<Access>): real {
    if run == [] then start else run[|run| - 1].now
  }

  /** How far the clock rose in all, for readings that may also go back: the sum of
      its upward steps from `start` on. */
  function Rise(start: real, run: seq<Access>): real
    decreases |run|
  {
    if run == [] then 0.0
    else (if start < run[0].now then run[0].now - start else 0.0) + Rise(run[0].now, run[1..])
  }

  lemma {:induction false} RiseIsElapsed(start: real, run: seq<Access>)
    requires MonotoneFrom(start, run)
    ensures Rise(start, run) == EndOf(start, run) - start
    decreases |run|
  {
    if run != [] {
      RiseIsElapsed(run[0].now, run[1..]);
    }
  }

  // ---- Bounding the table never costs a client ----

  /** `lead` is how many more admissions the bounded limiter has given `key` than
      the unbounded one. The bounded bucket may hold fewer tokens, but never
      fewer by more than the lead, and its refill never starts later. */
  ghost predicate Ahead(p: Params, t: Table, u: Table, key: string, lead: int) {
    && 0 <= lead
    && (key in t ==> InRange(p, t[key]))
    && (key in u ==> InRange(p, u[key]))
    && (key in t ==> key in u && t[key].last <= u[key].last && u[key].tokens <= t[key].tokens + lead as real)
  }

  /** Refilling both buckets at one reading keeps the lead. */
  lemma AheadRefill(p: Params, b: State, c: State, now: real, lead: int)
    requires p.Enabled() && InRange(p, b) && InRange(p, c) && 0 <= lead
    requires b.last <= c.last && c.tokens <= b.tokens + lead as real
    ensures Refilled(p, c, now).tokens <= Refilled(p, b, now).tokens + lead as real
  {
    hide Gain;
    RefillBound(p, b, now);
    if c.last < now {
      GainMonotone(p, now - c.last, now - b.last);
    }
  }

  lemma AheadStep(cfg: Config, t: Table, u: Table, e: Access, key: string, lead: int)
    requires cfg.Valid() && Legal(cfg, t, e) && Ahead(cfg.params, t, u, key, lead)
    ensures var (t', ok) := Allowed(cfg, t, e);
            var (u', okU) := Unbounded(cfg.params, u, e.key, e.now);
            var gain := if e.key != key || ok == okU then 0 else if ok then 1 else -1;
            Ahead(cfg.params, t', u', key, lead + gain)
  {
    hide Refilled;
    hide Evicted;
    var p := cfg.params;
    if e.key == key {
      var kept := t - Evicted(cfg, t, e);
      var b, c := BucketOf(p, kept, key, e.now), BucketOf(p, u, key, e.now);
      RefillBound(p, b, e.now);
      RefillBound(p, c, e.now);
      if key in kept {
        AheadRefill(p, b, c, e.now, lead);
      } else {
        FullStaysFull(p, e.now);
      }
    }
  }

  lemma FullStaysFull(p: Params, now: real)
    ensures Refilled(p, Full(p, now), now) == Full(p, now)
  {
  }

  lemma {:induction false} AheadRun(cfg: Config, t: Table, u: Table, run: seq<Access>, key: string, lead: int)
    requires cfg.Valid() && LegalRun(cfg, t, run) && Ahead(cfg.params, t, u, key, lead)
    ensures AdmittedUnbounded(cfg.params, u, run, key) <= Admitted(cfg, t, run, key) + lead
    decreases |run|
  {
    if run != [] {
      var e := run[0];
      AheadStep(cfg, t, u, e, key, lead);
      var (t', ok) := Allowed(cfg, t, e);
      var (u', okU) := Unbounded(cfg.params, u, e.key, e.now);
      AheadRun(cfg, t', u', run[1..], key,
               lead + if e.key != key || ok == okU then 0 else if ok then 1 else -1);
    }
  }

  /** Bounding the table never costs a client: over every run from an empty table,
      for every iteration order and even with out-of-order clock readings, each
      key is admitted at least as often as by a limiter that never evicts. */
  lemma BoundingNeverCostsAClient(cfg: Config, run: seq<Access>, key: string)
    requires cfg.Valid() && LegalRun(cfg, map[], run)
    ensures AdmittedUnbounded(cfg.params, map[], run, key) <= Admitted(cfg, map[], run, key)
  {
    AheadRun(cfg, map[], map[], run, key, 0);
  }

  // ---- The admission bound ----

  /** The tokens `key` can count on at `now`: an absent bucket counts as full. */
  function Budget(p: Params, t: Table, key: string, now: real): real {
    if key in t then Refilled(p, t[key], now).tokens else p.burst
  }

  /** The tokens in `n` full buckets. */
  function Bursts(p: Params, n: nat): real { n as real * p.burst }

  lemma BudgetMeaning(p: Params, n: nat, elapsed: real)
    ensures Bursts(p, n) + Gain(p, elapsed) == n as real * p.burst + p.rate * elapsed
  {
    GainMeaning(p, elapsed);
  }

  lemma BurstsAdd(p: Params, n: nat)
    ensures Bursts(p, 0) == 0.0 && Bursts(p, n + 1) == Bursts(p, n) + p.burst
  {
  }

  lemma EvictionBudget(cfg: Config, t: Table, e: Access, key: string)
    requires cfg.Valid() && TableInRange(cfg, t) && Legal(cfg, t, e)
    ensures Budget(cfg.params, t - Evicted(cfg, t, e), key, e.now)
            <= Budget(cfg.params, t, key, e.now) + if ForcedOut(cfg, t, e, key) then cfg.params.burst else 0.0
  {
    EvictedWithin(cfg, t, e);
    if key in Evicted(cfg, t, e) {
      RefillBound(cfg.params, t[key], e.now);
      GainAdds(cfg.params, 0.0, 0.0);
    }
  }

  lemma BudgetGrows(cfg: Config, t: Table, key: string, start: real, now: real)
    requires cfg.Valid() && TableInRange(cfg, t)
    ensures 0.0 <= Budget(cfg.params, t, key, start) <= cfg.params.burst
    ensures Budget(cfg.params, t, key, now)
            <= Budget(cfg.params, t, key, start) + Gain(cfg.params, Max(0.0, now - start))
  {
    var rise := Max(0.0, now - start);
    GainMonotone(cfg.params, 0.0, rise);
    GainAdds(cfg.params, 0.0, 0.0);
    if key in t {
      var r := Refilled(cfg.params, t[key], start);
      RefillBound(cfg.params, t[key], start);
      RefillBound(cfg.params, t[key], now);
      RefillTwice(cfg.params, t[key], start, now);
      RefillTwice(cfg.params, t[key], now, start);
      RefillBound(cfg.params, r, now);
      RefillBound(cfg.params, Refilled(cfg.params, t[key], now), start);
      if start < now {
        GainMonotone(cfg.params, Refilled(cfg.params, r, now).last - r.last, rise);
      }
    }
  }

  lemma BudgetStep(cfg: Config, t: Table, start: real, e: Access, key: string)
    requires cfg.Valid() && TableInRange(cfg, t) && Legal(cfg, t, e)
    ensures var (t', ok) := Allowed(cfg, t, e);
            && TableInRange(cfg, t')
            && (if e.key == key && ok then 1.0 else 0.0) + Budget(cfg.params, t', key, e.now)
               <= Budget(cfg.params, t, key, start) + Gain(cfg.params, Max(0.0, e.now - start))
                  + if ForcedOut(cfg, t, e, key) then cfg.params.burst else 0.0
  {
    var p := cfg.params;
    var kept := t - Evicted(cfg, t, e);
    AllowedInRange(cfg, t, e);
    BudgetGrows(cfg, t, key, start, e.now);
    EvictionBudget(cfg, t, e, key);
    TakeBound(p, BucketOf(p, kept, e.key, e.now), e.now);
  }

  /** Spending over a run, as a telescoping sum of budgets. */
  lemma {:induction false} SpendingBound(cfg: Config, t: Table, start: real, run: seq<Access>, key: string)
    requires cfg.Valid() && TableInRange(cfg, t) && LegalRun(cfg, t, run)
    ensures Admitted(cfg, t, run, key) as real
            <= Budget(cfg.params, t, key, start)
               + Bursts(cfg.params, ForcedEvictions(cfg, t, run, key))
               + Gain(cfg.params, Rise(start, run))
    decreases |run|
  {
    hide Gain, Bursts, Budget, Allowed, ForcedOut, Legal;
    GainAdds(cfg.params, 0.0, 0.0);
    BurstsAdd(cfg.params, 0);
    BudgetGrows(cfg, t, key, start, start);
    if run != [] {
      var e := run[0];
      var (t', ok) := Allowed(cfg, t, e);
      var p, forced := cfg.params, ForcedEvictions(cfg, t', run[1..], key);
      var up, rest := Max(0.0, e.now - start), Rise(e.now, run[1..]);
      BudgetStep(cfg, t, start, e, key);
      SpendingBound(cfg, t', e.now, run[1..], key);
      GainAdds(p, up, rest);
      BurstsAdd(p, forced);
      Telescopes(if e.key == key && ok then 1.0 else 0.0, Admitted(cfg, t', run[1..], key) as real,
                 Budget(p, t, key, start), Budget(p, t', key, e.now),
                 if ForcedOut(cfg, t, e, key) then p.burst else 0.0, Bursts(p, forced),
                 Gain(p, up), Gain(p, rest));
    }
  }

  lemma Telescopes(spent: real, rest: real, budget: real, budget': real,
                   extra: real, forced: real, gain: real, gain': real)
    requires spent + budget' <= budget + gain + extra
    requires rest <= budget' + forced + gain'
    ensures spent + rest <= budget + (forced + extra) + (gain + gain')
  {
  }

  lemma AdmissionBudget(cfg: Config, t: Table, start: real, run: seq<Access>, key: string)
    requires cfg.Valid() && TableInRange(cfg, t) && LegalRun(cfg, t, run)
    ensures Admitted(cfg, t, run, key) as real
            <= Bursts(cfg.params, 1 + ForcedEvictions(cfg, t, run, key)) + Gain(cfg.params, Rise(start, run))
  {
    SpendingBound(cfg, t, start, run, key);
    BudgetGrows(cfg, t, key, start, start);
    BurstsAdd(cfg.params, ForcedEvictions(cfg, t, run, key));
  }

  /** The admission bound, for every clock, over any stretch of a run and from
      whatever table it starts in: a key is admitted at most burst times one more
      than its forced evictions, plus rate times the rise of the clock. */
  lemma AdmissionBound(cfg: Config, t: Table, start: real, run: seq<Access>, key: string)
    requires cfg.Valid() && TableInRange(cfg, t) && LegalRun(cfg, t, run)
    ensures Admitted(cfg, t, run, key) as real
            <= (1 + ForcedEvictions(cfg, t, run, key)) as real * cfg.params.burst + cfg.params.rate * Rise(start, run)
  {
    hide *;
    AdmissionBudget(cfg, t, start, run, key);
    BudgetMeaning(cfg.params, 1 + ForcedEvictions(cfg, t, run, key), Rise(start, run));
  }

  /** Where the clock does not go back its rise is the time elapsed. */
  lemma AdmissionBoundOverTime(cfg: Config, t: Table, start: real, run: seq<Access>, key: string)
    requires cfg.Valid() && TableInRange(cfg, t) && LegalRun(cfg, t, run) && MonotoneFrom(start, run)
    ensures Admitted(cfg, t, run, key) as real
            <= (1 + ForcedEvictions(cfg, t, run, key)) as real * cfg.params.burst
               + cfg.params.rate * (EndOf(start, run) - start)
  {
    hide *;
    AdmissionBound(cfg, t, start, run, key);
    RiseIsElapsed(start, run);
  }

  // ---- Evicting idle buckets is invisible ----

  /** The bounded table answers for `key` as the unbounded one: it holds the same
      bucket, or none where the other has had time to refill. */
  ghost predicate SameFor(p: Params, t: Table, u: Table, key: string, now: real) {
    && (key in u ==> InRange(p, u[key]) && u[key].last <= now)
    && (if key in t then key in u && t[key] == u[key]
        else key in u ==> Idle(p, u[key], now))
  }

  lemma SameForStep(cfg: Config, t: Table, u: Table, start: real, e: Access, key: string)
    requires cfg.Valid() && Legal(cfg, t, e) && start <= e.now
    requires SameFor(cfg.params, t, u, key, start) && !ForcedOut(cfg, t, e, key)
    ensures var (t', ok) := Allowed(cfg, t, e);
            var (u', okU) := Unbounded(cfg.params, u, e.key, e.now);
            SameFor(cfg.params, t', u', key, e.now) && (e.key == key ==> ok == okU)
  {
    var p := cfg.params;
    EvictedWithin(cfg, t, e);
    if key in u {
      GainMonotone(p, start - u[key].last, e.now - u[key].last);
      TakeBound(p, u[key], e.now);
      IdleExactlyWhenRecreationIsInvisible(p, u[key], start);
    }
    TakeBound(p, Full(p, e.now), e.now);
  }

  lemma {:induction false} SameForRun(cfg: Config, t: Table, u: Table, start: real, run: seq<Access>, key: string)
    requires cfg.Valid() && LegalRun(cfg, t, run) && MonotoneFrom(start, run)
    requires SameFor(cfg.params, t, u, key, start) && ForcedEvictions(cfg, t, run, key) == 0
    ensures Answers(cfg, t, run, key) == AnswersUnbounded(cfg.params, u, run, key)
    decreases |run|
  {
    if run != [] {
      var e := run[0];
      SameForStep(cfg, t, u, start, e, key);
      SameForRun(cfg, Allowed(cfg, t, e).0, Unbounded(cfg.params, u, e.key, e.now).0, e.now, run[1..], key);
    }
  }

  /** A key that was never evicted by force gets, answer for answer, what the
      unbounded limiter would have given it, however often its idle bucket was
      dropped and created again. */
  lemma IdleEvictionIsInvisible(cfg: Config, start: real, run: seq<Access>, key: string)
    requires cfg.Valid() && LegalRun(cfg, map[], run) && MonotoneFrom(start, run)
    requires ForcedEvictions(cfg, map[], run, key) == 0
    ensures Answers(cfg, map[], run, key) == AnswersUnbounded(cfg.params, map[], run, key)
  {
    SameForRun(cfg, map[], map[], start, run, key);
  }

  // ---- The table bound ----

  /** Whatever table a run starts in, non-empty keys keep it within its bound. */
  lemma {:induction false} TableStaysBounded(cfg: Config, t: Table, run: seq<Access>)
    requires cfg.Valid() && LegalRun(cfg, t, run)
    requires |t| <= cfg.maxKeys && "" !in t
    requires forall e | e in run :: e.key != ""
    ensures |TableAfter(cfg, t, run)| <= cfg.maxKeys && "" !in TableAfter(cfg, t, run)
    decreases |run|
  {
    if run != [] {
      var e := run[0];
      assert e in run;
      if NeedsRoom(cfg, t, e.key) {
        LegalOrderIsBoundedSample(t, e.order);
        ScanFindsIdleOrLeastRecent(cfg, t, e.now, e.order);
      }
      TableBoundStep(cfg, t, e);
      TableStaysBounded(cfg, Allowed(cfg, t, e).0, run[1..]);
    }
  }

  predicate KeysWithin(run: seq<Access>, keys: set<string>) {
    forall e | e in run :: e.key in keys
  }

  lemma {:induction false} TableKeysWithin(cfg: Config, t: Table, run: seq<Access>, keys: set<string>)
    requires t.Keys <= keys && KeysWithin(run, keys)
    ensures TableAfter(cfg, t, run).Keys <= keys
    decreases |run|
  {
    hide Evicted, Taken;
    if run != [] {
      assert run[0] in run;
      TableKeysWithin(cfg, Allowed(cfg, t, run[0]).0, run[1..], keys);
    }
  }

  /** A limiter with less than one token's burst admits nobody, so every bucket is
      full and idle, and every pass frees something. */
  lemma {:induction false} FullTableStaysBounded(cfg: Config, t: Table, run: seq<Access>)
    requires cfg.Valid() && cfg.params.burst < 1.0 && LegalRun(cfg, t, run)
    requires |t| <= cfg.maxKeys && forall k | k in t :: t[k].tokens == cfg.params.burst
    ensures |TableAfter(cfg, t, run)| <= cfg.maxKeys
    decreases |run|
  {
    hide Gain;
    if run != [] {
      var e := run[0];
      forall k | k in t ensures Idle(cfg.params, t[k], e.now) {
        GainAdds(cfg.params, 0.0, 0.0);
        GainMonotone(cfg.params, 0.0, Max(0.0, e.now - t[k].last));
      }
      if NeedsRoom(cfg, t, e.key) {
        LegalOrderIsBoundedSample(t, e.order);
        ScanFindsIdleOrLeastRecent(cfg, t, e.now, e.order);
        assert e.order[0] in e.order;
      }
      TableBoundStep(cfg, t, e);
      var kept := t - Evicted(cfg, t, e);
      var b := BucketOf(cfg.params, kept, e.key, e.now);
      GainAdds(cfg.params, 0.0, 0.0);
      GainMonotone(cfg.params, 0.0, Max(0.0, e.now - b.last));
      assert Taken(cfg.params, b, e.now).0.tokens == cfg.params.burst;
      FullTableStaysBounded(cfg, Allowed(cfg, t, e).0, run[1..]);
    }
  }

  /** Every table can be met from any of its keys on. */
  lemma {:induction false} SomeLegalOrder(keys: set<string>, met: seq<string>, todo: set<string>)
    returns (order: seq<string>)
    requires Iterates(keys, met, todo) && 0 < |met| <= SWEEP_BUDGET
    ensures LegalOrder(keys, order) && order != [] && order[0] == met[0]
    decreases todo
  {
    if todo == {} || |met| == SWEEP_BUDGET {
      order := met;
    } else {
      var key :| key in todo;
      IterationGoesOn(keys, met, todo, key);
      order := SomeLegalOrder(keys, met + [key], todo - {key});
    }
  }

  lemma {:induction false} ScanSettlesOnTheFirst(cfg: Config, t: Table, order: seq<string>)
    requires order != [] && forall k | k in order :: k in t && t[k].last == 0.0 && !Idle(cfg.params, t[k], 0.0)
    ensures Scan(cfg, t, 0.0, order) == Pass({}, order[0], 0.0, |order|)
    decreases |order|
  {
    hide Idle;
    var init := order[..|order| - 1];
    if init != [] {
      ScanSettlesOnTheFirst(cfg, t, init);
    } else {
      assert order == [order[0]] && Scan(cfg, t, 0.0, init) == Pass({}, "", 0.0, 0);
    }
  }

  /** The bucket of a client that came once, at time 0. */
  function SpentOnce(p: Params): State { State(p.burst - 1.0, 0.0) }

  lemma SpentOnceIsLive(p: Params)
    requires p.Enabled() && 1.0 <= p.burst
    ensures Taken(p, Full(p, 0.0), 0.0).0 == SpentOnce(p) && !Idle(p, SpentOnce(p), 0.0)
  {
    GainAdds(p, 0.0, 0.0);
  }

  /** A fresh client arrives, and the pass, if one is needed, meets the empty key first
      and evicts nothing. */
  lemma FreshArrival(cfg: Config, t: Table, key: string) returns (e: Access)
    requires cfg.Valid() && 1.0 <= cfg.params.burst && "" in t && key !in t
    requires forall k | k in t :: t[k] == SpentOnce(cfg.params)
    ensures e.key == key && Legal(cfg, t, e) && Allowed(cfg, t, e).0 == t[key := SpentOnce(cfg.params)]
  {
    hide Idle, Taken, SpentOnce, Iterates, LegalOrder, Scan;
    SpentOnceIsLive(cfg.params);
    e := Access(key, 0.0, []);
    if NeedsRoom(cfg, t, key) {
      var met := StartWith(t.Keys, "");
      var order := SomeLegalOrder(t.Keys, met, t.Keys - {""});
      LegalOrderIsBoundedSample(t, order);
      LastOfSpentOnce(cfg.params);
      ScanSettlesOnTheFirst(cfg, t, order);
      e := Access(key, 0.0, order);
    }
    assert Evicted(cfg, t, e) == {} && t - {} == t;
  }

  lemma LastOfSpentOnce(p: Params)
    ensures SpentOnce(p).last == 0.0
  {
  }

  /** Fresh clients arrive all at once, until one finds the table full. */
  lemma {:induction false} FloodPastTheEmptyKey(cfg: Config, t: Table, pool: set<string>) returns (run: seq<Access>)
    requires cfg.Valid() && 1.0 <= cfg.params.burst && "" in t && |t| <= cfg.maxKeys
    requires forall k | k in t :: t[k] == SpentOnce(cfg.params)
    requires pool !! t.Keys && cfg.maxKeys < |t| + |pool|
    ensures LegalRun(cfg, t, run) && KeysWithin(run, pool)
    ensures cfg.maxKeys < |TableAfter(cfg, t, run)|
    decreases |pool|
  {
    hide Allowed, Legal, SpentOnce;
    var key :| key in pool;
    var e := FreshArrival(cfg, t, key);
    var t' := Allowed(cfg, t, e).0;
    assert t'.Keys == t.Keys + {key} && |t'| == |t'.Keys| == |t| + 1;
    var rest := [];
    if |t'| <= cfg.maxKeys {
      rest := FloodPastTheEmptyKey(cfg, t', pool - {key});
    }
    run := [e] + rest;
    assert run[1..] == rest;
  }

  lemma StartWith(keys: set<string>, first: string) returns (met: seq<string>)
    requires first in keys
    ensures met == [first] && Iterates(keys, met, keys - {first})
  {
    met := [first];
    assert met[..0] == [] && keys - {first} + {first} == keys;
    assert Iterates(keys, met[..0], keys);
  }

  /** Exactly when the table stays within its bound, over all runs of the clients
      `keys`: when nobody is ever admitted, or the empty key is not among them, or they
      all fit. */
  lemma TableBoundedExactlyWhen(cfg: Config, keys: set<string>)
    requires cfg.Valid()
    ensures (forall run | LegalRun(cfg, map[], run) && KeysWithin(run, keys) ::
               |TableAfter(cfg, map[], run)| <= cfg.maxKeys)
            <==> cfg.params.burst < 1.0 || "" !in keys || |keys| <= cfg.maxKeys
  {
    hide LegalRun, TableAfter;
    if cfg.params.burst < 1.0 || "" !in keys || |keys| <= cfg.maxKeys {
      forall run | LegalRun(cfg, map[], run) && KeysWithin(run, keys)
        ensures |TableAfter(cfg, map[], run)| <= cfg.maxKeys
      {
        if cfg.params.burst < 1.0 {
          FullTableStaysBounded(cfg, map[], run);
        } else if "" !in keys {
          TableStaysBounded(cfg, map[], run);
        } else {
          TableKeysWithin(cfg, map[], run, keys);
          SubsetSize(TableAfter(cfg, map[], run).Keys, keys);
          assert |TableAfter(cfg, map[], run).Keys| == |TableAfter(cfg, map[], run)|;
        }
      }
    } else {
      var run := OverflowingRun(cfg, keys);
    }
  }

  lemma OverflowingRun(cfg: Config, keys: set<string>) returns (run: seq<Access>)
    requires cfg.Valid() && 1.0 <= cfg.params.burst && "" in keys && cfg.maxKeys < |keys|
    ensures LegalRun(cfg, map[], run) && KeysWithin(run, keys)
    ensures cfg.maxKeys < |TableAfter(cfg, map[], run)|
  {
    hide SpentOnce;
    SpentOnceIsLive(cfg.params);
    var e := Access("", 0.0, []);
    var t: Table := map["" := SpentOnce(cfg.params)];
    assert Evicted(cfg, map[], e) == {} && Allowed(cfg, map[], e).0 == t;
    assert t.Keys == {""} && |t| == 1;
    var rest := FloodPastTheEmptyKey(cfg, t, keys - {""});
    run := [e] + rest;
    assert run[1..] == rest;
  }

  // ---- Service: the limiter does not over-limit ----

  function Requests(run: seq<Access>, key: string): nat
    decreases |run|
  {
    if run == [] then 0 else (if run[0].key == key then 1 else 0) + Requests(run[1..], key)
  }

  /** Each request of `key` comes at least a token's worth of time after the one
      before it, the first after `prev` if there is one. */
  predicate Paced(p: Params, prev: real, started: bool, run: seq<Access>, key: string)
    decreases |run|
  {
    run == [] ||
    if run[0].key != key then Paced(p, prev, started, run[1..], key)
    else
      && (started ==> prev < run[0].now && p.rate * (run[0].now - prev) >= 1.0)
      && Paced(p, run[0].now, true, run[1..], key)
  }

  lemma PaceEarnsAToken(p: Params, elapsed: real)
    requires p.rate * elapsed >= 1.0
    ensures Gain(p, elapsed) >= 1.0
  {
    GainMeaning(p, elapsed);
  }

  lemma PacedTake(p: Params, s: State, now: real)
    requires p.Enabled() && 1.0 <= p.burst && InRange(p, s) && s.last < now && Gain(p, now - s.last) >= 1.0
    ensures Taken(p, s, now).1
  {
  }

  lemma {:induction false} PacedUnbounded(p: Params, u: Table, run: seq<Access>, key: string)
    requires p.Enabled() && 1.0 <= p.burst && (key in u ==> InRange(p, u[key]))
    requires Paced(p, if key in u then u[key].last else 0.0, key in u, run, key)
    ensures AdmittedUnbounded(p, u, run, key) == Requests(run, key)
    decreases |run|
  {
    if run != [] {
      var e := run[0];
      if e.key == key {
        if key in u {
          PaceEarnsAToken(p, e.now - u[key].last);
          PacedTake(p, u[key], e.now);
          TakeBound(p, u[key], e.now);
        } else {
          TakeBound(p, Full(p, e.now), e.now);
        }
      }
      hide Gain;
      hide Taken;
      PacedUnbounded(p, Unbounded(p, u, e.key, e.now).0, run[1..], key);
    }
  }

  lemma {:induction false} AdmittedAtMostRequests(cfg: Config, t: Table, run: seq<Access>, key: string)
    ensures Admitted(cfg, t, run, key) <= Requests(run, key)
    decreases |run|
  {
    if run != [] {
      AdmittedAtMostRequests(cfg, Allowed(cfg, t, run[0]).0, run[1..], key);
    }
  }

  /** A limiter with a negative rate or burst admits every request. */
  lemma {:induction false} SwitchedOffAdmitsAll(cfg: Config, t: Table, run: seq<Access>, key: string)
    requires cfg.params.rate < 0.0 || cfg.params.burst < 0.0
    ensures LegalRun(cfg, t, run) && TableAfter(cfg, t, run) == t
    ensures Admitted(cfg, t, run, key) == Requests(run, key)
    decreases |run|
  {
    if run != [] {
      SwitchedOffAdmitsAll(cfg, t, run[1..], key);
    }
  }

  /** A client that keeps to the rate is never refused, whatever the others do to the
      table: eviction can only ever give it more. */
  lemma PacedClientIsNeverRefused(cfg: Config, run: seq<Access>, key: string)
    requires cfg.Valid() && 1.0 <= cfg.params.burst && LegalRun(cfg, map[], run)
    requires Paced(cfg.params, 0.0, false, run, key)
    ensures Admitted(cfg, map[], run, key) == Requests(run, key)
  {
    PacedUnbounded(cfg.params, map[], run, key);
    BoundingNeverCostsAClient(cfg, run, key);
    AdmittedAtMostRequests(cfg, map[], run, key);
  }
}
