/** The bounded per-key table of token buckets, internal/limits/limits.go.

    Go iterates over a map in an arbitrary order. An `Access` carries the order
    in which its eviction pass, if it made one, met the entries of the table. */
module KeyedLimiter {
  import opened TokenBucket

  /** Entries one eviction pass may examine. */
  const SWEEP_BUDGET: nat := 256

  type Table = map<string, State>

  datatype Config = Config(params: Params, maxKeys: nat)
  {
    predicate Valid() { params.Enabled() && 1 <= maxKeys }
  }

  /** One call of allow: its key, its clock reading, and the entries its eviction
      pass examined, in order. */
  datatype Access = Access(key: string, now: real, order: seq<string>)

  /** The variables of the eviction pass. */
  datatype Pass = Pass(gone: set<string>, oldestKey: string, oldest: real, seen: nat)

  predicate TableInRange(cfg: Config, t: Table) {
    forall k | k in t :: InRange(cfg.params, t[k])
  }

  /** A limiter that is switched off never touches its table. */
  predicate NeedsRoom(cfg: Config, t: Table, key: string) {
    cfg.params.Enabled() && key !in t && |t| >= cfg.maxKeys
  }

  /** One entry of the pass. A key the table does not hold is never met. */
  function Visit(cfg: Config, t: Table, now: real, p: Pass, key: string): Pass {
    if key !in t then p
    else if Idle(cfg.params, t[key], now) then
      Pass(p.gone + {key}, p.oldestKey, p.oldest, p.seen + 1)
    else if p.seen == 0 || t[key].last < p.oldest then
      Pass(p.gone, key, t[key].last, p.seen + 1)
    else
      p.(seen := p.seen + 1)
  }

  /** The eviction pass over the entries `order`. */
  function Scan(cfg: Config, t: Table, now: real, order: seq<string>): Pass {
    if order == [] then Pass({}, "", 0.0, 0)
    else
      Visit(cfg, t, now, Scan(cfg, t, now, order[..|order| - 1]), order[|order| - 1])
  }

  /** An iteration over `keys` that has met `order` and still has `todo` to go. */
  predicate Iterates(keys: set<string>, order: seq<string>, todo: set<string>)
    decreases |order|
  {
    if order == [] then todo == keys
    else
      var key := order[|order| - 1];
      key !in todo && Iterates(keys, order[..|order| - 1], todo + {key})
  }

  lemma {:induction false} IterationIsDistinct(keys: set<string>, order: seq<string>, todo: set<string>)
    requires Iterates(keys, order, todo)
    ensures todo <= keys && |order| + |todo| == |keys|
    ensures forall k | k in order :: k in keys && k !in todo
    ensures forall i, j | 0 <= i < j < |order| :: order[i] != order[j]
    decreases |order|
  {
    if order != [] {
      IterationIsDistinct(keys, order[..|order| - 1], todo + {order[|order| - 1]});
    }
  }

  lemma IterationBegins(cfg: Config, t: Table, now: real, keys: set<string>)
    ensures Iterates(keys, [], keys) && Scan(cfg, t, now, []) == Pass({}, "", 0.0, 0)
  {
  }

  lemma ScanGoesOn(cfg: Config, t: Table, now: real, order: seq<string>, key: string)
    ensures Scan(cfg, t, now, order + [key]) == Visit(cfg, t, now, Scan(cfg, t, now, order), key)
  {
    assert (order + [key])[..|order|] == order;
  }

  lemma IterationGoesOn(keys: set<string>, order: seq<string>, todo: set<string>, key: string)
    requires Iterates(keys, order, todo) && key in todo
    ensures Iterates(keys, order + [key], todo - {key})
  {
    assert (order + [key])[..|order|] == order;
    assert todo - {key} + {key} == todo;
  }

  /** A pass stops when it has met every entry, or SWEEP_BUDGET of them. */
  ghost predicate LegalOrder(keys: set<string>, order: seq<string>) {
    exists todo | Iterates(keys, order, todo) ::
      |order| <= SWEEP_BUDGET && (todo == {} || |order| == SWEEP_BUDGET)
  }

  ghost predicate Legal(cfg: Config, t: Table, e: Access) {
    NeedsRoom(cfg, t, e.key) ==> LegalOrder(t.Keys, e.order)
  }

  /** The keys an access evicts. */
  function Evicted(cfg: Config, t: Table, e: Access): set<string> {
    if !NeedsRoom(cfg, t, e.key) then {}
    else
      var p := Scan(cfg, t, e.now, e.order);
      if p.gone == {} && p.oldestKey != "" then {p.oldestKey} else p.gone
  }

  /** The bucket `key` would find: its own, or a full one. */
  function BucketOf(p: Params, t: Table, key: string, now: real): State {
    if key in t then t[key] else Full(p, now)
  }

  /** The table after an access, and its answer. */
  function Allowed(cfg: Config, t: Table, e: Access): (Table, bool) {
    if !cfg.params.Enabled() then (t, true)
    else
      var kept := t - Evicted(cfg, t, e);
      var (b, ok) := Taken(cfg.params, BucketOf(cfg.params, kept, e.key, e.now), e.now);
      (kept[e.key := b], ok)
  }

  /** The simple limiter the table stands in for: one bucket per key, for ever. */
  function Unbounded(p: Params, u: Table, key: string, now: real): (Table, bool) {
    var (b, ok) := Taken(p, BucketOf(p, u, key, now), now);
    (u[key := b], ok)
  }

  /** A least recently used entry among those examined. */
  predicate LeastRecent(t: Table, order: seq<string>, victim: string)
    requires forall k | k in order :: k in t
  {
    victim in order && forall k | k in order :: t[victim].last <= t[k].last
  }

  /** What the pass finds: every idle entry it met and, when it met none, a least
      recently used entry. `oldest` is compared before it holds a reading only
      when an idle entry came first, and then it no longer matters. */
  lemma {:induction false} ScanFindsIdleOrLeastRecent(cfg: Config, t: Table, now: real, order: seq<string>)
    requires forall k | k in order :: k in t
    ensures var p := Scan(cfg, t, now, order);
            && p.seen == |order|
            && (forall k :: k in p.gone <==> k in order && Idle(cfg.params, t[k], now))
            && (p.gone == {} && order != [] ==> LeastRecent(t, order, p.oldestKey) && p.oldest == t[p.oldestKey].last)
    decreases |order|
  {
    if order != [] {
      var init, key := order[..|order| - 1], order[|order| - 1];
      assert order == init + [key];
      ScanFindsIdleOrLeastRecent(cfg, t, now, init);
    }
  }

  /** A legal pass examines distinct entries of the table: all, or 256 of them. */
  lemma LegalOrderIsBoundedSample(t: Table, order: seq<string>)
    requires LegalOrder(t.Keys, order)
    ensures |order| == if |t| < 256 then |t| else 256
    ensures forall k | k in order :: k in t
    ensures forall i, j | 0 <= i < j < |order| :: order[i] != order[j]
  {
    var todo :| Iterates(t.Keys, order, todo) && |order| <= SWEEP_BUDGET && (todo == {} || |order| == SWEEP_BUDGET);
    IterationIsDistinct(t.Keys, order, todo);
    assert |t| == |t.Keys|;
  }

  /** Sampled least-recently-used eviction, for every iteration order: a new key that
      finds the table full, and no other, makes a pass, which evicts either exactly the
      idle entries it examined or, when none of them is idle, one that is least
      recently used among them - unless that one is the empty key, which it leaves in
      place. */
  lemma EvictionIsSampledLeastRecent(cfg: Config, t: Table, e: Access)
    requires cfg.Valid() && Legal(cfg, t, e)
    ensures e.key in t || |t| < cfg.maxKeys ==> Evicted(cfg, t, e) == {}
    ensures e.key !in t && cfg.maxKeys <= |t| ==>
              && 0 < |e.order| <= 256 && (forall k | k in e.order :: k in t)
              && var gone := Evicted(cfg, t, e);
                 if exists k | k in e.order :: Idle(cfg.params, t[k], e.now)
                 then gone == set k | k in e.order && Idle(cfg.params, t[k], e.now)
                 else exists victim | LeastRecent(t, e.order, victim) :: gone == {victim} - {""}
  {
    if NeedsRoom(cfg, t, e.key) {
      LegalOrderIsBoundedSample(t, e.order);
      ScanFindsIdleOrLeastRecent(cfg, t, e.now, e.order);
      var p := Scan(cfg, t, e.now, e.order);
      if p.gone == {} {
        assert LeastRecent(t, e.order, p.oldestKey);
      } else {
        var k :| k in p.gone;
      }
    }
  }

  /** One access: it draws on its own key's bucket, a full one if there is none, keeps
      every other bucket it does not evict as it was, and answers by what it drew. A
      limiter with a negative rate or burst admits everything and keeps nothing. */
  lemma AccessDrawsOnItsOwnBucket(cfg: Config, t: Table, e: Access)
    requires Legal(cfg, t, e)
    ensures var (t', ok) := Allowed(cfg, t, e);
            if cfg.params.rate < 0.0 || cfg.params.burst < 0.0 then t' == t && ok
            else
              && t'.Keys == t.Keys - Evicted(cfg, t, e) + {e.key}
              && (forall k | k in t' && k != e.key :: k in t && t'[k] == t[k])
              && (t'[e.key], ok) ==
                 Taken(cfg.params, if e.key in t then t[e.key] else State(cfg.params.burst, e.now), e.now)
  {
    EvictedWithin(cfg, t, e);
  }

  lemma EvictedWithin(cfg: Config, t: Table, e: Access)
    requires Legal(cfg, t, e)
    ensures Evicted(cfg, t, e) <= t.Keys && e.key !in Evicted(cfg, t, e)
  {
    if NeedsRoom(cfg, t, e.key) {
      LegalOrderIsBoundedSample(t, e.order);
      ScanFindsIdleOrLeastRecent(cfg, t, e.now, e.order);
    }
  }

  lemma AllowedInRange(cfg: Config, t: Table, e: Access)
    requires cfg.Valid() && TableInRange(cfg, t) && Legal(cfg, t, e)
    ensures TableInRange(cfg, Allowed(cfg, t, e).0)
  {
    TakeBound(cfg.params, BucketOf(cfg.params, t - Evicted(cfg, t, e), e.key, e.now), e.now);
  }

  /** A table within its bound stays there except when the pass met no idle entry
      and settled on the empty key; then it grows past the bound. */
  lemma TableBoundStep(cfg: Config, t: Table, e: Access)
    requires cfg.Valid() && |t| <= cfg.maxKeys && Legal(cfg, t, e)
    ensures |Allowed(cfg, t, e).0| <= cfg.maxKeys <==>
            !(NeedsRoom(cfg, t, e.key) &&
              Scan(cfg, t, e.now, e.order).gone == {} && Scan(cfg, t, e.now, e.order).oldestKey == "")
  {
    var gone := Evicted(cfg, t, e);
    EvictedWithin(cfg, t, e);
    var kept, next := t - gone, Allowed(cfg, t, e).0;
    assert kept.Keys == t.Keys - gone && |kept.Keys| == |t.Keys| - |gone|;
    assert next.Keys == kept.Keys + {e.key};
  }

  lemma RemoveOneMore<K, V>(m: map<K, V>, gone: set<K>, k: K)
    ensures m - gone - {k} == m - (gone + {k})
  {
    assert (m - gone - {k}).Keys == (m - (gone + {k})).Keys;
  }

  lemma UpdateTwice<K, V>(m: map<K, V>, k: K, v: V, w: V)
    ensures m[k := v][k := w] == m[k := w]
  {
  }

  /** The limiter object: a mutable map of mutable buckets. */
  class Limiter {
    ghost var Contents: Table
    var buckets: map<string, Bucket>
    const rate: real
    const burst: real
    const maxKeys: nat
    const disabled: bool

    /** `Contents` says what each key's bucket holds; no two keys share a bucket. */
    ghost predicate Valid()
      reads this, buckets.Values
    {
      && disabled == !Params(rate, burst).Enabled()
      && 1 <= maxKeys
      && (forall k :: k in Contents <==> k in buckets)
      && forall k | k in buckets ::
           buckets[k].owner == k && buckets[k].tokens == Contents[k].tokens && buckets[k].last == Contents[k].last
    }

    function Cfg(): Config { Config(Params(rate, burst), maxKeys) }

    constructor (rate: real, burst: real, maxKeys: nat)
      requires 1 <= maxKeys
      ensures Valid() && Contents == map[]
      ensures Cfg() == Config(Params(rate, burst), maxKeys)
    {
      Contents, buckets := map[], map[];
      this.rate, this.burst, this.maxKeys := rate, burst, maxKeys;
      disabled := rate < 0.0 || burst < 0.0;
    }

    /** The loop of evictLocked: one bounded pass over the map, deleting the idle
        entries it meets. The ghost result is the order in which it met them. */
    method Sweep(now: real) returns (freed: nat, oldestKey: string, ghost order: seq<string>)
      requires Valid()
      modifies this`buckets
      ensures var p := Scan(Cfg(), Contents, now, order);
              (freed == 0 <==> p.gone == {}) && oldestKey == p.oldestKey && buckets == old(buckets) - p.gone
      ensures LegalOrder(old(buckets.Keys), order)
    {
      hide Idle, Iterates, Scan;
      IterationBegins(Cfg(), Contents, now, buckets.Keys);
      ghost var held := buckets;
      freed, oldestKey, order := 0, "", [];
      var oldest, seen, todo := 0.0, 0, buckets.Keys;
      while todo != {} && seen < SWEEP_BUDGET
        invariant Iterates(held.Keys, order, todo) && todo <= buckets.Keys
        invariant var p := Scan(Cfg(), Contents, now, order);
                  && (freed == 0 <==> p.gone == {}) && buckets == held - p.gone
                  && Pass(p.gone, oldestKey, oldest, seen) == p
        invariant seen == |order| <= SWEEP_BUDGET
        decreases todo
      {
        var key :| key in todo;
        IterationGoesOn(held.Keys, order, todo, key);
        ScanGoesOn(Cfg(), Contents, now, order, key);
        RemoveOneMore(held, Scan(Cfg(), Contents, now, order).gone, key);
        var b := buckets[key];
        var idle := b.IsIdle(now, rate, burst);
        if idle {
          buckets := buckets - {key};
          freed := freed + 1;
        } else if seen == 0 || b.last < oldest {
          oldestKey, oldest := key, b.last;
        }
        seen := seen + 1;
        todo := todo - {key};
        order := order + [key];
      }
    }

    /** evictLocked: drop the idle entries met or else the least recent one. */
    method EvictLocked(ghost key: string, now: real) returns (ghost e: Access)
      requires Valid() && NeedsRoom(Cfg(), Contents, key)
      modifies this`buckets
      ensures e.key == key && e.now == now && Legal(Cfg(), Contents, e)
      ensures buckets == old(buckets) - Evicted(Cfg(), Contents, e)
    {
      hide Scan, LegalOrder;
      assert Contents.Keys == buckets.Keys;
      var freed, oldestKey;
      ghost var order;
      freed, oldestKey, order := Sweep(now);
      e := Access(key, now, order);
      if freed == 0 && oldestKey != "" {
        buckets := buckets - {oldestKey};
        assert buckets == old(buckets) - {oldestKey};
      }
    }

    /** The bucket of `key`, created full if there is none, making room first. */
    method Obtain(key: string, now: real) returns (b: Bucket, ghost e: Access)
      requires Valid() && !disabled
      modifies this`buckets, this`Contents
      ensures Valid() && key in buckets && b == buckets[key]
      ensures if key in old(buckets) then b == old(buckets[key]) else fresh(b)
      ensures e.key == key && e.now == now && Legal(Cfg(), old(Contents), e)
      ensures var kept := old(Contents) - Evicted(Cfg(), old(Contents), e);
              Contents == kept[key := BucketOf(Cfg().params, kept, key, now)]
    {
      e := Access(key, now, []);
      assert Contents.Keys == buckets.Keys && |Contents| == |Contents.Keys|;
      if key in buckets {
        b := buckets[key];
      } else {
        if |buckets| >= maxKeys {
          e := EvictLocked(key, now);
        }
        b := new Bucket(burst, now, key);
        buckets := buckets[key := b];
        ghost var kept := Contents - Evicted(Cfg(), Contents, e);
        Contents := kept[key := Full(Cfg().params, now)];
      }
    }

    /** allow: consume one token for `key` at the clock reading `now`. */
    method Allow(key: string, now: real) returns (ok: bool, ghost e: Access)
      requires Valid()
      modifies this`buckets, this`Contents, buckets.Values
      ensures Valid()
      ensures e.key == key && e.now == now && Legal(Cfg(), old(Contents), e)
      ensures rate < 0.0 || burst < 0.0 ==> ok && Contents == old(Contents)
      ensures (Contents, ok) == Allowed(Cfg(), old(Contents), e)
    {
      e := Access(key, now, []);
      if disabled {
        return true, e;
      }
      var b;
      b, e := Obtain(key, now);
      ok := b.Take(now, rate, burst);
      Contents := Contents[key := b.Value()];
      ghost var kept := old(Contents) - Evicted(Cfg(), old(Contents), e);
      assert Contents == kept[key := b.Value()] by {
        UpdateTwice(kept, key, BucketOf(Cfg().params, kept, key, now), b.Value());
      }
    }

    /** size: the number of tracked keys. */
    method Size() returns (n: nat)
      requires Valid()
      ensures n == |Contents|
    {
      assert Contents.Keys == buckets.Keys && |Contents| == |Contents.Keys|;
      n := |buckets|;
    }
  }
}
