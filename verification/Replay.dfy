/** The bounded replay cache, internal/scep/replay.go, and what it guarantees over
    whole runs. Keys are whatever the pair was hashed to; time is in nanoseconds. */
module Replay {
  import opened Common

  const DEFAULT_REPLAY_TTL: int := 900_000_000_000
  const DEFAULT_REPLAY_MAX_ENTRIES: int := 100_000

  datatype Config = Config(ttl: int, maxSize: int)
  {
    predicate Valid() { 0 < ttl && 0 < maxSize }
  }

  /** NewReplayCache's defaults. */
  function Configured(ttl: int, maxSize: int): (cfg: Config)
    ensures cfg.Valid()
  {
    Config(if ttl <= 0 then DEFAULT_REPLAY_TTL else ttl,
           if maxSize <= 0 then DEFAULT_REPLAY_MAX_ENTRIES else maxSize)
  }

  function Live(seen: map<string, int>, now: int): map<string, int> {
    map k | k in seen && now < seen[k] :: seen[k]
  }

  /** evictLocked: drop what has expired; if that freed nothing, drop everything. */
  function Evicted(cfg: Config, seen: map<string, int>, now: int): map<string, int> {
    if |Live(seen, now)| >= cfg.maxSize then map[] else Live(seen, now)
  }

  /** Check: the table afterwards and whether the key was fresh. */
  function Checked(cfg: Config, seen: map<string, int>, key: string, now: int): (map<string, int>, bool) {
    if key in seen && now < seen[key] then (seen, false)
    else
      var kept := if |seen| >= cfg.maxSize then Evicted(cfg, seen, now) else seen;
      (kept[key := now + cfg.ttl], true)
  }

  class ReplayCache {
    var seen: map<string, int>
    const cfg: Config

    ghost predicate Valid() reads this {
      cfg.Valid() && |seen| <= cfg.maxSize
    }

    constructor (ttl: int, maxSize: int)
      ensures Valid() && seen == map[] && cfg == Configured(ttl, maxSize)
      ensures cfg.ttl == if ttl <= 0 then 900_000_000_000 else ttl  // 15 minutes
      ensures cfg.maxSize == if maxSize <= 0 then 100_000 else maxSize
    {
      seen := map[];
      cfg := Configured(ttl, maxSize);
    }

    method EvictLocked(now: int)
      modifies this
      ensures seen == Evicted(cfg, old(seen), now)
    {
      var todo := seen.Keys;
      while todo != {}
        invariant todo <= seen.Keys <= old(seen).Keys
        invariant forall k | k in old(seen) :: k in seen <==> k in todo || now < old(seen)[k]
        invariant forall k | k in seen :: seen[k] == old(seen)[k]
        decreases todo
      {
        var k :| k in todo;
        todo := todo - {k};
        if !(now < seen[k]) {
          seen := seen - {k};
        }
      }
      assert seen == Live(old(seen), now);
      if |seen| >= cfg.maxSize {
        seen := map[];
      }
    }

    /** Check records the key on first sight. The table never outgrows its bound. */
    method Check(key: string, now: int) returns (accepted: bool)
      requires Valid()
      modifies this
      ensures Valid()
      ensures (seen, accepted) == Checked(cfg, old(seen), key, now)
    {
      CheckedSize(cfg, seen, key, now);
      if key in seen && now < seen[key] {
        return false;
      }
      if |seen| >= cfg.maxSize {
        EvictLocked(now);
      }
      seen := seen[key := now + cfg.ttl];
      return true;
    }
  }

  lemma CheckedSize(cfg: Config, seen: map<string, int>, key: string, now: int)
    requires cfg.Valid() && |seen| <= cfg.maxSize
    ensures |Checked(cfg, seen, key, now).0| <= cfg.maxSize
  {
    var (seen', ok) := Checked(cfg, seen, key, now);
    if ok {
      var kept := if |seen| >= cfg.maxSize then Evicted(cfg, seen, now) else seen;
      assert seen'.Keys == kept.Keys + {key};
    }
  }

  // ---- Runs ----

  datatype Event = Event(key: string, now: int)

  function SeenAfter(cfg: Config, run: seq<Event>): map<string, int>
    decreases |run|
  {
    if run == [] then map[]
    else
      var e := run[|run| - 1];
      Checked(cfg, SeenAfter(cfg, run[..|run| - 1]), e.key, e.now).0
  }

  function SeenBefore(cfg: Config, run: seq<Event>, i: nat): map<string, int>
    requires i <= |run|
  {
    SeenAfter(cfg, run[..i])
  }

  predicate AcceptedAt(cfg: Config, run: seq<Event>, i: nat) {
    i < |run| && Checked(cfg, SeenBefore(cfg, run, i), run[i].key, run[i].now).1
  }

  /** Event `i` finds the table full and sweeps it. */
  predicate SweptAt(cfg: Config, run: seq<Event>, i: nat) {
    AcceptedAt(cfg, run, i) && |SeenBefore(cfg, run, i)| >= cfg.maxSize
  }

  /** Event `i` finds the table full of live entries and resets it. */
  predicate ClearedAt(cfg: Config, run: seq<Event>, i: nat) {
    SweptAt(cfg, run, i) && |Live(SeenBefore(cfg, run, i), run[i].now)| >= cfg.maxSize
  }

  /** Event `m` drops what event `i` recorded: it clears the table, or sweeps it at a
      reading at which `i` has expired. */
  predicate DropsAt(cfg: Config, run: seq<Event>, i: nat, m: nat)
    requires i < |run|
  {
    ClearedAt(cfg, run, m) || (SweptAt(cfg, run, m) && run[i].now + cfg.ttl <= run[m].now)
  }

  predicate Monotone(run: seq<Event>) {
    forall i, j | 0 <= i < j < |run| :: run[i].now <= run[j].now
  }

  lemma SeenStep(cfg: Config, run: seq<Event>, i: nat)
    requires i < |run|
    ensures SeenBefore(cfg, run, i + 1) == Checked(cfg, SeenBefore(cfg, run, i), run[i].key, run[i].now).0
  {
    assert run[..i + 1][..i] == run[..i];
  }

  /** A key accepted at `i` stays in the table, with an expiry no earlier, until an
      event drops it. */
  lemma {:induction false} AcceptedKeyIsKept(cfg: Config, run: seq<Event>, i: nat, j: nat)
    requires cfg.Valid() && i < j <= |run| && AcceptedAt(cfg, run, i)
    requires forall m | i < m < j :: !DropsAt(cfg, run, i, m)
    ensures var seen := SeenBefore(cfg, run, j);
            run[i].key in seen && run[i].now + cfg.ttl <= seen[run[i].key]
    decreases j
  {
    SeenStep(cfg, run, j - 1);
    if j > i + 1 {
      AcceptedKeyIsKept(cfg, run, i, j - 1);
      assert !DropsAt(cfg, run, i, j - 1);
    }
  }

  /** Every entry goes back to an accept that no event has dropped since. */
  lemma {:induction false} EntryComesFromAccept(cfg: Config, run: seq<Event>, n: nat, key: string) returns (i: nat)
    requires cfg.Valid() && n <= |run| && key in SeenBefore(cfg, run, n)
    ensures i < n && AcceptedAt(cfg, run, i) && run[i].key == key
    ensures SeenBefore(cfg, run, n)[key] == run[i].now + cfg.ttl
    ensures forall m | i < m < n :: !DropsAt(cfg, run, i, m)
    decreases n
  {
    SeenStep(cfg, run, n - 1);
    if AcceptedAt(cfg, run, n - 1) && run[n - 1].key == key {
      i := n - 1;
    } else {
      i := EntryComesFromAccept(cfg, run, n - 1, key);
      assert !DropsAt(cfg, run, i, n - 1);
    }
  }

  /** Exactly what the cache refuses, for any clock at all: the keys accepted before,
      unexpired at this reading, that no event in between has dropped. No other
      replay is stopped, and no other key is kept out. */
  lemma RefusedExactlyWhenAcceptedAndNotDropped(cfg: Config, run: seq<Event>, j: nat)
    requires cfg.Valid() && j < |run|
    ensures !AcceptedAt(cfg, run, j) <==>
            exists i | 0 <= i < j ::
              && AcceptedAt(cfg, run, i) && run[i].key == run[j].key && run[j].now < run[i].now + cfg.ttl
              && forall m | i < m < j :: !DropsAt(cfg, run, i, m)
  {
    if !AcceptedAt(cfg, run, j) {
      var i := EntryComesFromAccept(cfg, run, j, run[j].key);
    } else if i: nat :|
        && i < j && AcceptedAt(cfg, run, i) && run[i].key == run[j].key && run[j].now < run[i].now + cfg.ttl
        && forall m | i < m < j :: !DropsAt(cfg, run, i, m) {
      AcceptedKeyIsKept(cfg, run, i, j);
      assert false;
    }
  }

  /** Where the clock does not go back, only a clear can drop what is unexpired: a
      key is refused exactly when it was accepted less than `ttl` ago with no clear
      in between. */
  lemma RefusedExactlyWhenRecentlyAccepted(cfg: Config, run: seq<Event>, j: nat)
    requires cfg.Valid() && Monotone(run) && j < |run|
    ensures !AcceptedAt(cfg, run, j) <==>
            exists i | 0 <= i < j ::
              && AcceptedAt(cfg, run, i) && run[i].key == run[j].key && run[j].now < run[i].now + cfg.ttl
              && forall m | i < m < j :: !ClearedAt(cfg, run, m)
  {
    hide AcceptedAt, ClearedAt;
    RefusedExactlyWhenAcceptedAndNotDropped(cfg, run, j);
    forall i, m | 0 <= i < m < j && run[j].now < run[i].now + cfg.ttl
      ensures DropsAt(cfg, run, i, m) <==> ClearedAt(cfg, run, m)
    {
      assert run[m].now <= run[j].now;
    }
  }

  /** The distinct keys accepted before event `m` and still unexpired at it. */
  function RecentKeys(cfg: Config, run: seq<Event>, m: nat): set<string>
    requires m < |run|
  {
    set i | 0 <= i < m && AcceptedAt(cfg, run, i) && run[m].now < run[i].now + cfg.ttl :: run[i].key
  }

  /** A flood: at least `maxSize` distinct keys were accepted within the last `ttl`. */
  predicate FloodAt(cfg: Config, run: seq<Event>, m: nat)
    requires m < |run|
  {
    cfg.maxSize <= |RecentKeys(cfg, run, m)|
  }

  /** Only a flood has the table cleared. */
  lemma ClearNeedsAFlood(cfg: Config, run: seq<Event>, m: nat)
    requires cfg.Valid() && ClearedAt(cfg, run, m)
    ensures FloodAt(cfg, run, m)
  {
    var live := Live(SeenBefore(cfg, run, m), run[m].now);
    forall k | k in live ensures k in RecentKeys(cfg, run, m) {
      var i := EntryComesFromAccept(cfg, run, m, k);
    }
    SubsetSize(live.Keys, RecentKeys(cfg, run, m));
    assert |live| == |live.Keys|;
  }

  /** Two accepts of one key, for any clock at all: at least `ttl` lies between them,
      or an event in between dropped the first - and if by a clear, then in a flood.
      Where the clock does not go back only a flood is left. */
  lemma SecondAcceptNeedsTimeOrDrop(cfg: Config, run: seq<Event>, i: nat, j: nat)
    requires cfg.Valid()
    requires i < j && AcceptedAt(cfg, run, i) && AcceptedAt(cfg, run, j) && run[i].key == run[j].key
    ensures run[i].now + cfg.ttl <= run[j].now
            || exists m | i < m < j :: DropsAt(cfg, run, i, m) && (ClearedAt(cfg, run, m) ==> FloodAt(cfg, run, m))
    ensures Monotone(run) ==>
              run[i].now + cfg.ttl <= run[j].now
              || exists m | i < m < j :: ClearedAt(cfg, run, m) && FloodAt(cfg, run, m)
  {
    if run[j].now < run[i].now + cfg.ttl {
      RefusedExactlyWhenAcceptedAndNotDropped(cfg, run, j);
      var m :| i < m < j && DropsAt(cfg, run, i, m);
      if ClearedAt(cfg, run, m) {
        ClearNeedsAFlood(cfg, run, m);
      }
    }
  }

  /** Replay safety over whole runs: if no event between them met a flood, two accepts
      of one key inside `ttl` have a sweep between them whose reading was at or past
      the first one's expiry; where the clock does not go back there are none. */
  lemma NoReplayWithoutAFlood(cfg: Config, run: seq<Event>, i: nat, j: nat)
    requires cfg.Valid()
    requires forall m | i < m < j && m < |run| :: !FloodAt(cfg, run, m)
    requires i < j && AcceptedAt(cfg, run, i) && AcceptedAt(cfg, run, j) && run[i].key == run[j].key
    ensures run[i].now + cfg.ttl <= run[j].now
            || exists m | i < m < j :: SweptAt(cfg, run, m) && run[i].now + cfg.ttl <= run[m].now
    ensures Monotone(run) ==> run[i].now + cfg.ttl <= run[j].now
  {
    SecondAcceptNeedsTimeOrDrop(cfg, run, i, j);
  }

  /** The clock matters: readings are taken before the lock, and one sweep by a late
      reading makes room for a replay whose earlier reading is still inside `ttl`,
      although the table was never cleared. */
  lemma StaleSweepLetsAReplayIn()
    ensures var cfg := Config(10, 1);
            var run := [Event("a", 0), Event("b", 20), Event("a", 5)];
            && AcceptedAt(cfg, run, 0) && AcceptedAt(cfg, run, 2)
            && run[2].now < run[0].now + cfg.ttl
            && !ClearedAt(cfg, run, 1)
  {
    var cfg := Config(10, 1);
    var run := [Event("a", 0), Event("b", 20), Event("a", 5)];
    SeenStep(cfg, run, 0);
    SeenStep(cfg, run, 1);
    assert SeenBefore(cfg, run, 0) == map[];
    var seen1 := SeenBefore(cfg, run, 1);
    assert seen1 == map["a" := 10] && seen1.Keys == {"a"};
    assert Live(seen1, 20) == map[];
    var seen2 := SeenBefore(cfg, run, 2);
    assert seen2 == map["b" := 30] && seen2.Keys == {"b"};
    assert "a" !in seen2;
  }
}
