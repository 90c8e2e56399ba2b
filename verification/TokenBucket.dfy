/** The lazily refilled token bucket of internal/limits/limits.go.

    Tokens and clock readings are reals: rounding of float64 is not modelled. */
module TokenBucket {

  datatype Params = Params(rate: real, burst: real)
  {
    /** A limiter with a negative rate or burst is switched off altogether. */
    predicate Enabled() { 0.0 <= rate && 0.0 <= burst }
  }

  datatype State = State(tokens: real, last: real)

  function Min(a: real, b: real): real { if a <= b then a else b }
  function Max(a: real, b: real): real { if a <= b then b else a }

  /** The tokens earned over a stretch of time. */
  function Gain(p: Params, elapsed: real): real { elapsed * p.rate }

  function Refilled(p: Params, s: State, now: real): State {
    if now - s.last > 0.0 then State(Min(p.burst, s.tokens + Gain(p, now - s.last)), now) else s
  }

  function Taken(p: Params, s: State, now: real): (State, bool) {
    var r := Refilled(p, s, now);
    if r.tokens < 1.0 then (r, false) else (r.(tokens := r.tokens - 1.0), true)
  }

  predicate Idle(p: Params, s: State, now: real) {
    s.tokens + Gain(p, Max(0.0, now - s.last)) >= p.burst
  }

  /** The bucket a client starts with. */
  function Full(p: Params, now: real): State { State(p.burst, now) }

  predicate InRange(p: Params, s: State) { 0.0 <= s.tokens <= p.burst }

  lemma GainMonotone(p: Params, a: real, b: real)
    requires 0.0 <= p.rate && a <= b
    ensures Gain(p, a) <= Gain(p, b)
  {
    assert (b - a) * p.rate >= 0.0;
  }

  lemma GainAdds(p: Params, a: real, b: real)
    ensures Gain(p, a) + Gain(p, b) == Gain(p, a + b)
    ensures Gain(p, 0.0) == 0.0
  {
  }

  /** Seconds times tokens a second. */
  lemma GainMeaning(p: Params, elapsed: real)
    ensures Gain(p, elapsed) == p.rate * elapsed
  {
  }

  /** What one refill does: it stays in range, moves `last` to the later of the
      two readings, and adds at most what that advance earned. */
  lemma RefillBound(p: Params, s: State, now: real)
    requires p.Enabled() && InRange(p, s)
    ensures var r := Refilled(p, s, now);
            InRange(p, r) && r.last == Max(s.last, now) &&
            s.tokens <= r.tokens <= s.tokens + Gain(p, r.last - s.last)
  {
    GainAdds(p, 0.0, 0.0);
    if s.last < now {
      GainMonotone(p, 0.0, now - s.last);
    }
  }

  /** What one access costs: an admission is paid for in tokens. */
  lemma TakeBound(p: Params, s: State, now: real)
    requires p.Enabled() && InRange(p, s)
    ensures var (s', ok) := Taken(p, s, now);
            InRange(p, s') && s'.last == Max(s.last, now) &&
            (if ok then 1.0 else 0.0) + s'.tokens <= s.tokens + Gain(p, s'.last - s.last)
  {
    RefillBound(p, s, now);
  }

  /** Lazy refill is exact: refilling at two readings, in whatever order they
      arrive, is the same as refilling once at the later one. */
  lemma RefillTwice(p: Params, s: State, a: real, b: real)
    requires p.Enabled() && InRange(p, s)
    ensures Refilled(p, Refilled(p, s, a), b) == Refilled(p, s, Max(a, b))
  {
    if s.last < a < b {
      GainAdds(p, a - s.last, b - a);
      GainAdds(p, 0.0, 0.0);
      GainMonotone(p, 0.0, b - a);
    }
  }

  /** Recreating a bucket at a reading gives exactly what refilling it there would,
      for any reading, early ones included, if and only if it was not touched later
      and is idle. */
  lemma RecreationIsRefillExactlyWhen(p: Params, s: State, now: real)
    requires p.Enabled() && InRange(p, s)
    ensures Refilled(p, s, now) == Full(p, now) <==> s.last <= now && Idle(p, s, now)
  {
    GainAdds(p, 0.0, 0.0);
  }

  /** Dropping a bucket costs its client nothing and gives it nothing exactly
      when the bucket is idle: from then on, and only then, it is at every
      reading the bucket that would be created afresh at that reading. */
  lemma IdleExactlyWhenRecreationIsInvisible(p: Params, s: State, now: real)
    requires p.Enabled() && InRange(p, s) && s.last <= now
    ensures Idle(p, s, now) <==>
            forall later | now <= later :: Refilled(p, s, later) == Full(p, later)
  {
    GainAdds(p, 0.0, 0.0);
    if Idle(p, s, now) {
      forall later | now <= later ensures Refilled(p, s, later) == Full(p, later) {
        GainMonotone(p, now - s.last, later - s.last);
      }
    } else {
      assert Refilled(p, s, now) != Full(p, now);
    }
  }

  /** The bucket and number of admissions after the readings `nows`, in order. */
  function TakeAll(p: Params, s: State, nows: seq<real>): (State, nat)
    decreases nows
  {
    if nows == [] then (s, 0)
    else
      var (s', ok) := Taken(p, s, nows[0]);
      var (end, n) := TakeAll(p, s', nows[1..]);
      (end, n + if ok then 1 else 0)
  }

  lemma {:induction false} TakeAllBound(p: Params, s: State, nows: seq<real>)
    requires p.Enabled() && InRange(p, s)
    ensures var (end, n) := TakeAll(p, s, nows);
            InRange(p, end) && s.last <= end.last &&
            n as real + end.tokens <= s.tokens + Gain(p, end.last - s.last)
    decreases nows
  {
    GainAdds(p, 0.0, 0.0);
    if nows != [] {
      var (s', ok) := Taken(p, s, nows[0]);
      TakeBound(p, s, nows[0]);
      TakeAllBound(p, s', nows[1..]);
      var end := TakeAll(p, s', nows[1..]).0;
      GainAdds(p, s'.last - s.last, end.last - s'.last);
    }
  }

  /** One surviving bucket admits at most its tokens plus what the advance of
      `last` earned, even when clock readings arrive out of order. */
  lemma SurvivingBucketBound(p: Params, s: State, nows: seq<real>)
    requires p.Enabled() && InRange(p, s)
    ensures var (end, n) := TakeAll(p, s, nows);
            InRange(p, end) && s.last <= end.last &&
            n as real + end.tokens <= s.tokens + p.rate * (end.last - s.last)
  {
    hide TakeAll, Gain;
    TakeAllBound(p, s, nows);
    GainMeaning(p, TakeAll(p, s, nows).0.last - s.last);
  }

  /** The bucket object: `Take` and `Refill` update it in place. */
  class Bucket {
    var tokens: real
    var last: real
    ghost const owner: string  // the one key this bucket serves

    function Value(): State reads this { State(tokens, last) }

    constructor (tokens: real, last: real, ghost owner: string)
      ensures Value() == State(tokens, last) && this.owner == owner
    {
      this.tokens, this.last, this.owner := tokens, last, owner;
    }

    method Refill(now: real, rate: real, burst: real)
      modifies this
      ensures now <= old(last) ==> tokens == old(tokens) && last == old(last)
      ensures old(last) < now ==>
                var earned := old(tokens) + rate * (now - old(last));
                last == now && tokens == if earned <= burst then earned else burst
      ensures Value() == Refilled(Params(rate, burst), old(Value()), now)
    {
      var elapsed := now - last;
      if elapsed > 0.0 {
        tokens := Min(burst, tokens + elapsed * rate);
        last := now;
      }
    }

    method Take(now: real, rate: real, burst: real) returns (ok: bool)
      modifies this
      ensures var r := Refilled(Params(rate, burst), old(Value()), now);
              && last == r.last && (ok <==> 1.0 <= r.tokens)
              && tokens == if ok then r.tokens - 1.0 else r.tokens
      ensures (Value(), ok) == Taken(Params(rate, burst), old(Value()), now)
    {
      Refill(now, rate, burst);
      if tokens < 1.0 {
        return false;
      }
      tokens := tokens - 1.0;
      return true;
    }

    method IsIdle(now: real, rate: real, burst: real) returns (idle: bool)
      ensures idle <==> burst <= if last < now then tokens + rate * (now - last) else tokens
      ensures idle == Idle(Params(rate, burst), Value(), now)
    {
      idle := tokens + Max(0.0, now - last) * rate >= burst;
    }
  }
}
