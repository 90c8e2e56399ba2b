/** Concrete runs of the bounded limiter showing which hypotheses of its theorems
    cannot be dropped. */
module LimiterExamples {
  import opened TokenBucket
  import opened KeyedLimiter
  import opened LimiterRuns

  /** The table bound needs the non-empty keys: a table of one that holds the empty key's
      live bucket grows to two at the next client. */
  lemma EmptyKeyOutgrowsTheTable()
    ensures var cfg := Config(Params(1.0, 5.0), 1);
            var run := [Access("", 0.0, []), Access("a", 0.0, [""])];
            cfg.Valid() && LegalRun(cfg, map[], run) && |TableAfter(cfg, map[], run)| == 2
  {
    var cfg := Config(Params(1.0, 5.0), 1);
    var e0, e1 := Access("", 0.0, []), Access("a", 0.0, [""]);
    var t1 := Allowed(cfg, map[], e0).0;
    assert Evicted(cfg, map[], e0) == {};
    assert Taken(cfg.params, Full(cfg.params, 0.0), 0.0) == (State(4.0, 0.0), true);
    assert t1.Keys == {""} && t1[""] == State(4.0, 0.0);
    SweepOfEmptyKey(cfg, t1);
    var t2 := Allowed(cfg, t1, e1).0;
    assert t2.Keys == {"", "a"};
    assert [e0, e1][1..] == [e1] && [e1][1..] == [];
    assert LegalRun(cfg, t1, [e1]);
  }

  lemma SweepOfEmptyKey(cfg: Config, t: Table)
    requires cfg == Config(Params(1.0, 5.0), 1) && t.Keys == {""} && t[""] == State(4.0, 0.0)
    ensures LegalOrder(t.Keys, [""]) && Evicted(cfg, t, Access("a", 0.0, [""])) == {}
  {
    assert [""][..0] == [];
    assert {} + {""} == t.Keys;
    assert Iterates(t.Keys, [""][..0], {""});
    assert Iterates(t.Keys, [""], {});
    assert Gain(cfg.params, 0.0) == 0.0;
    assert Scan(cfg, t, 0.0, []) == Pass({}, "", 0.0, 0);
    assert Scan(cfg, t, 0.0, [""]) == Pass({}, "", 0.0, 1);
  }

  // ---- Tables of one ----

  /** A second key takes the place of the only bucket, whose eviction is forced
      unless it is idle. */
  lemma SwapStep(cfg: Config, x: string, s: State, y: string, now: real)
    requires cfg.Valid() && cfg.maxKeys == 1 && x != "" && x != y
    ensures var t, e := map[x := s], Access(y, now, [x]);
            && Legal(cfg, t, e) && Evicted(cfg, t, e) == {x}
            && Allowed(cfg, t, e) == (map[y := Taken(cfg.params, Full(cfg.params, now), now).0],
                                      Taken(cfg.params, Full(cfg.params, now), now).1)
  {
    hide Taken;
    var t, e := map[x := s], Access(y, now, [x]);
    assert t.Keys == {x} && |t| == 1;
    assert [x][..0] == [] && {} + {x} == t.Keys;
    assert Iterates(t.Keys, [x][..0], {x});
    assert Iterates(t.Keys, [x], {});
    assert Scan(cfg, t, now, []) == Pass({}, "", 0.0, 0);
    assert t - {x} == map[];
  }

  lemma StayStep(cfg: Config, x: string, s: State, now: real)
    requires cfg.Valid() && cfg.maxKeys == 1
    ensures var t, e := map[x := s], Access(x, now, []);
            && Legal(cfg, t, e) && Evicted(cfg, t, e) == {}
            && Allowed(cfg, t, e) == (map[x := Taken(cfg.params, s, now).0], Taken(cfg.params, s, now).1)
  {
    hide Taken;
    var t := map[x := s];
    assert t - {} == t && t[x := Taken(cfg.params, s, now).0] == map[x := Taken(cfg.params, s, now).0];
  }

  lemma FirstStep(cfg: Config, x: string, now: real)
    requires cfg.Valid()
    ensures var e := Access(x, now, []);
            && Legal(cfg, map[], e) && Evicted(cfg, map[], e) == {}
            && Allowed(cfg, map[], e) == (map[x := Taken(cfg.params, Full(cfg.params, now), now).0],
                                          Taken(cfg.params, Full(cfg.params, now), now).1)
  {
    hide Taken;
  }

  /** In elapsed time the admission bound needs the clock: with readings that go back
      and forth inside one second, a key none of whose evictions was forced is admitted
      three times where burst and rate allow two. The clock rises by two seconds. */
  lemma StaleReadingsBreakTheAdmissionBound()
    ensures exists cfg: Config, run: seq<Access> ::
              && cfg.Valid() && LegalRun(cfg, map[], run)
              && (forall e | e in run :: 0.0 <= e.now <= 1.0)
              && ForcedEvictions(cfg, map[], run, "a") == 0
              && Admitted(cfg, map[], run, "a") as real > cfg.params.burst + cfg.params.rate * 1.0
  {
    hide Taken, Allowed, Legal, Evicted, Bursts, Gain, Idle, Scan, NeedsRoom;
    var cfg := Config(Params(1.0, 1.0), 1);
    var p := cfg.params;
    var a0, a1, b1 := Access("a", 0.0, []), Access("a", 0.0, ["b"]), Access("b", 1.0, ["a"]);
    var tA: Table, tB: Table := map["a" := State(0.0, 0.0)], map["b" := State(0.0, 1.0)];
    FullBucketAdmits(p, 0.0);
    FullBucketAdmits(p, 1.0);
    FirstStep(cfg, "a", 0.0);
    SwapStep(cfg, "a", State(0.0, 0.0), "b", 1.0);
    SwapStep(cfg, "b", State(0.0, 1.0), "a", 0.0);
    OneSecondRefills(p);
    StaleCycle(cfg, tA, tB, a1, b1, []);
    StaleCycle(cfg, tA, tB, a1, b1, [b1, a1]);
    var run := [a0, b1, a1, b1, a1];
    assert run[1..] == [b1, a1] + [b1, a1] && [b1, a1] == [b1, a1] + [];
    assert LegalRun(cfg, map[], run) && Admitted(cfg, map[], run, "a") == 3;
    assert ForcedEvictions(cfg, map[], run, "a") == 0;
  }

  lemma FullBucketAdmits(p: Params, now: real)
    requires p.Enabled() && 1.0 <= p.burst
    ensures Taken(p, Full(p, now), now) == (State(p.burst - 1.0, now), true)
  {
  }

  lemma OneSecondRefills(p: Params)
    requires p == Params(1.0, 1.0)
    ensures Idle(p, State(0.0, 0.0), 1.0)
  {
  }

  /** One more round: `b` displaces `a`, whose bucket a late reading finds idle, and
      an early reading has `a` created anew. */
  lemma StaleCycle(cfg: Config, tA: Table, tB: Table, a: Access, b: Access, rest: seq<Access>)
    requires Legal(cfg, tA, b) && Legal(cfg, tB, a) && a.key == "a" && b.key == "b"
    requires Allowed(cfg, tA, b) == (tB, true) && Allowed(cfg, tB, a) == (tA, true)
    requires !ForcedOut(cfg, tA, b, "a") && "a" !in tB
    ensures var run := [b, a] + rest;
            && (LegalRun(cfg, tA, run) <==> LegalRun(cfg, tA, rest))
            && Admitted(cfg, tA, run, "a") == 1 + Admitted(cfg, tA, rest, "a")
            && ForcedEvictions(cfg, tA, run, "a") == ForcedEvictions(cfg, tA, rest, "a")
  {
    hide Allowed;
    hide Legal;
    var run := [b, a] + rest;
    assert run[1..] == [a] + rest && run[1..][1..] == rest;
  }

  /** A forced eviction changes single answers in both directions, though never the
      count against the client: here the third answer is kinder than the unbounded
      limiter's and the fourth harsher. */
  lemma AnswersDifferAfterAForcedEviction()
    ensures exists cfg: Config, run: seq<Access> ::
              && cfg.Valid() && LegalRun(cfg, map[], run)
              && Answers(cfg, map[], run, "a") == [true, true, true, false]
              && AnswersUnbounded(cfg.params, map[], run, "a") == [true, true, false, true]
  {
    hide Taken, Allowed, Legal, Evicted, Bursts, Gain, Idle, Scan, NeedsRoom, Refilled;
    var cfg := Config(Params(1.0, 2.0), 1);
    var p := cfg.params;
    var half := State(0.5, 0.5);
    FullBucketAdmits(p, 0.0);
    FullBucketAdmits(p, 0.5);
    HalfASecondLater(p);
    FirstStep(cfg, "a", 0.0);
    SwapStep(cfg, "a", State(1.0, 0.0), "b", 0.5);
    SwapStep(cfg, "b", State(1.0, 0.5), "a", 0.5);
    StayStep(cfg, "a", State(1.0, 0.5), 0.5);
    StayStep(cfg, "a", State(0.0, 0.5), 1.0);
    var run := [Access("a", 0.0, []), Access("b", 0.5, ["a"]), Access("a", 0.5, ["b"]),
                Access("a", 0.5, []), Access("a", 1.0, [])];
    BoundedTrace(cfg, run, map["a" := State(1.0, 0.0)], map["b" := State(1.0, 0.5)],
                 map["a" := State(1.0, 0.5)], map["a" := State(0.0, 0.5)]);
    UnboundedTrace(p, run, State(1.0, 0.0), State(1.0, 0.5), half);
  }

  lemma HalfASecondLater(p: Params)
    requires p == Params(1.0, 2.0)
    ensures Taken(p, State(1.0, 0.5), 0.5) == (State(0.0, 0.5), true)
    ensures Taken(p, State(0.0, 0.5), 1.0) == (State(0.5, 1.0), false)
    ensures Taken(p, State(1.0, 0.0), 0.5) == (State(0.5, 0.5), true)
    ensures Taken(p, State(0.5, 0.5), 0.5) == (State(0.5, 0.5), false)
    ensures Taken(p, State(0.5, 0.5), 1.0) == (State(0.0, 1.0), true)
  {
  }

  lemma BoundedTrace(cfg: Config, run: seq<Access>, t1: Table, t2: Table, t3: Table, t4: Table)
    requires |run| == 5 && run[0].key == run[2].key == run[3].key == run[4].key == "a" && run[1].key == "b"
    requires Legal(cfg, map[], run[0]) && Allowed(cfg, map[], run[0]) == (t1, true)
    requires Legal(cfg, t1, run[1]) && Allowed(cfg, t1, run[1]) == (t2, true)
    requires Legal(cfg, t2, run[2]) && Allowed(cfg, t2, run[2]) == (t3, true)
    requires Legal(cfg, t3, run[3]) && Allowed(cfg, t3, run[3]) == (t4, true)
    requires Legal(cfg, t4, run[4]) && !Allowed(cfg, t4, run[4]).1
    ensures LegalRun(cfg, map[], run) && Answers(cfg, map[], run, "a") == [true, true, true, false]
  {
    hide Allowed;
    hide Legal;
    var r1 := run[1..];
    var r2 := r1[1..];
    var r3 := r2[1..];
    var r4 := r3[1..];
    assert LegalRun(cfg, t4, r4) && Answers(cfg, t4, r4, "a") == [false] by {
      assert r4[1..] == [];
    }
    assert LegalRun(cfg, t3, r3) && Answers(cfg, t3, r3, "a") == [true, false];
    assert LegalRun(cfg, t2, r2) && Answers(cfg, t2, r2, "a") == [true, true, false];
    assert LegalRun(cfg, t1, r1) && Answers(cfg, t1, r1, "a") == [true, true, false];
  }

  lemma UnboundedTrace(p: Params, run: seq<Access>, a1: State, b: State, half: State)
    requires |run| == 5 && run[0].key == run[2].key == run[3].key == run[4].key == "a" && run[1].key == "b"
    requires Taken(p, Full(p, run[0].now), run[0].now) == (a1, true)
    requires Taken(p, Full(p, run[1].now), run[1].now) == (b, true)
    requires Taken(p, a1, run[2].now) == (half, true) && Taken(p, half, run[3].now) == (half, false)
    requires Taken(p, half, run[4].now).1
    ensures AnswersUnbounded(p, map[], run, "a") == [true, true, false, true]
  {
    hide Taken;
    var r1 := run[1..];
    var r2 := r1[1..];
    var r3 := r2[1..];
    var r4 := r3[1..];
    var u1: Table := map["a" := a1];
    var u2: Table := u1["b" := b];
    var u3: Table := u2["a" := half];
    assert u3["a" := half] == u3;
    assert AnswersUnbounded(p, u3, r4, "a") == [true] by {
      assert r4[1..] == [];
    }
    assert AnswersUnbounded(p, u3, r3, "a") == [false, true];
    assert AnswersUnbounded(p, u2, r2, "a") == [true, false, true];
    assert AnswersUnbounded(p, u1, r1, "a") == [true, false, true];
  }
}
