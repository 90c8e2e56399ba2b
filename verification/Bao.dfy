/** The retry loop and backoff of internal/bao/client.go. The upstream is a script
    of outcomes, one per attempt; durations are 64-bit nanoseconds. */
module Bao {
  import opened Common

  const MAX_BACKOFF: int := 5_000_000_000
  const FIRST_BACKOFF: int := 100_000_000

  function Pow2(n: nat): (p: nat)
    ensures p > 0
  {
    if n == 0 then 1 else 2 * Pow2(n - 1)
  }

  /** Two's complement truncation to 64 bits. */
  function Wrap64(x: int): int {
    var r := x % 0x1_0000_0000_0000_0000;
    if r >= 0x8000_0000_0000_0000 then r - 0x1_0000_0000_0000_0000 else r
  }

  /** Go's division truncates toward zero. */
  function Half(x: int): int { if x >= 0 then x / 2 else -((-x) / 2) }

  /** The base delay before the 1-based retry `attempt`, as computed in 64 bits. */
  function BackoffBase(attempt: nat): int
    requires attempt > 0
  {
    var base := Wrap64(FIRST_BACKOFF * Pow2(attempt - 1));
    if base > MAX_BACKOFF then MAX_BACKOFF else base
  }

  /** rand.Int63n panics on a bound that is not positive. */
  predicate BackoffPanics(attempt: nat)
    requires attempt > 0
  {
    Half(BackoffBase(attempt)) + 1 <= 0
  }

  /** backoff: any jitter up to half the base. */
  method Backoff(attempt: nat, random: nat) returns (delay: Option<int>)
    requires attempt > 0
    ensures attempt <= 37 ==>
              delay == Some(IntendedBase(attempt) + random % (IntendedBase(attempt) / 2 + 1))
    ensures attempt == 38 ==> delay.None?
    ensures delay.None? <==> BackoffPanics(attempt)
    ensures delay.Some? ==> BackoffBase(attempt) <= delay.value <= BackoffBase(attempt) + Half(BackoffBase(attempt))
  {
    if attempt <= 37 {
      BackoffAsIntended(attempt);
    } else if attempt == 38 {
      BackoffOverflows();
    }
    hide BackoffBase;
    var bound := Half(BackoffBase(attempt)) + 1;
    if bound <= 0 {
      return None;
    }
    return Some(BackoffBase(attempt) + random % bound);
  }

  lemma {:induction false} Pow2Sum(a: nat, b: nat)
    ensures Pow2(a + b) == Pow2(a) * Pow2(b)
  {
    if a > 0 {
      Pow2Sum(a - 1, b);
      assert Pow2(a) * Pow2(b) == 2 * (Pow2(a - 1) * Pow2(b));
    }
  }

  lemma {:induction false} Pow2Monotone(a: nat, b: nat)
    requires a <= b
    ensures Pow2(a) <= Pow2(b)
    decreases b - a
  {
    if a < b {
      Pow2Monotone(a, b - 1);
    }
  }

  lemma Pow2Of36()
    ensures Pow2(36) == 68_719_476_736 && Pow2(37) == 137_438_953_472
  {
    assert Pow2(1) == 2 && Pow2(3) == 8;
    hide Pow2;
    Pow2Sum(3, 3);
    Pow2Sum(6, 6);
    Pow2Sum(12, 12);
    Pow2Sum(12, 24);
    Pow2Sum(1, 36);
  }

  /** The delay meant, in nanoseconds: doubling from 100ms, capped at 5s. */
  function IntendedBase(attempt: nat): int
    requires attempt > 0
  {
    match attempt
    case 1 => 100_000_000
    case 2 => 200_000_000
    case 3 => 400_000_000
    case 4 => 800_000_000
    case 5 => 1_600_000_000
    case 6 => 3_200_000_000
    case _ => 5_000_000_000
  }

  /** No overflow up to the 37th retry: the base is the one meant, and no draw panics. */
  lemma BackoffAsIntended(attempt: nat)
    requires 0 < attempt <= 37
    ensures BackoffBase(attempt) == IntendedBase(attempt)
    ensures !BackoffPanics(attempt)
  {
    assert Pow2(0) == 1 && Pow2(1) == 2 && Pow2(2) == 4 && Pow2(3) == 8;
    assert Pow2(4) == 16 && Pow2(5) == 32 && Pow2(6) == 64;
    hide Pow2;
    if attempt > 6 {
      Pow2Monotone(6, attempt - 1);
    }
    Pow2Monotone(attempt - 1, 36);
    Pow2Of36();
  }

  /** At the 38th the doubling leaves 64 bits, the base turns negative and the
      random draw panics. */
  lemma BackoffOverflows()
    ensures BackoffBase(38) < 0 && BackoffPanics(38)
  {
    hide Pow2;
    Pow2Of36();
  }

  // ---- The retry loop ----

  /** How one attempt ends. */
  datatype Outcome = NetworkError | ReadError | Unbuildable | Oversized | Answer(status: int, body: string)

  predicate Transient(o: Outcome) {
    o.NetworkError? || o.ReadError? || (o.Answer? && o.status >= 500)
  }

  datatype Response = Body(body: string) | Failed(outcome: Outcome) | Cancelled | Panicked

  function ResponseOf(o: Outcome): Response {
    if o.Answer? && o.status < 400 then Body(o.body) else Failed(o)
  }

  /** doRequest from its attempt number `attempt` on: the response and the number of
      attempts made. `cancelled(k)` says whether the context ends during the wait
      before retry `k`. */
  function Requested(maxRetries: nat, script: nat -> Outcome, cancelled: nat -> bool, attempt: nat): (Response, nat)
    requires attempt <= maxRetries
    decreases maxRetries - attempt
  {
    if !Transient(script(attempt)) || attempt == maxRetries then (ResponseOf(script(attempt)), attempt + 1)
    else if BackoffPanics(attempt + 1) then (Panicked, attempt + 1)
    else if cancelled(attempt + 1) then (Cancelled, attempt + 1)
    else Requested(maxRetries, script, cancelled, attempt + 1)
  }

  /** doRequest as the loop it is; `random` feeds the jitter. */
  method DoRequest(maxRetries: nat, script: nat -> Outcome, cancelled: nat -> bool, random: nat -> nat)
    returns (r: Response, attempts: nat)
    ensures (r, attempts) == Requested(maxRetries, script, cancelled, 0)
  {
    hide BackoffPanics;
    var lastErr: Response := Cancelled;
    for attempt := 0 to maxRetries + 1
      invariant attempt > 0 ==> Transient(script(attempt - 1)) && lastErr == Failed(script(attempt - 1))
      invariant Requested(maxRetries, script, cancelled, 0)
             == Requested(maxRetries, script, cancelled, if attempt == 0 then 0 else attempt - 1)
    {
      if attempt > 0 {
        var delay := Backoff(attempt, random(attempt));
        if delay.None? {
          return Panicked, attempt;
        }
        if cancelled(attempt) {
          return Cancelled, attempt;
        }
      }
      var o := script(attempt);
      if Transient(o) {
        lastErr := Failed(o);
      } else {
        return ResponseOf(o), attempt + 1;
      }
    }
    return lastErr, maxRetries + 1;
  }

  /** Lost on the way, cut off, or answered with a server error. */
  ghost predicate Retryable(o: Outcome) {
    match o
    case NetworkError => true
    case ReadError => true
    case Answer(status, _) => 500 <= status
    case _ => false
  }

  /** What the caller gets of the attempt that decides: the body of an answer below
      400, an error for anything else. */
  ghost predicate Delivers(r: Response, o: Outcome) {
    match o
    case Answer(status, body) => if status < 400 then r == Body(body) else r == Failed(o)
    case _ => r == Failed(o)
  }

  /** The reference: the first attempt, of those allowed, that does not fail
      transiently, or else the last one. */
  ghost predicate Decides(maxRetries: nat, script: nat -> Outcome, n: nat) {
    && n <= maxRetries
    && (n == maxRetries || !Retryable(script(n)))
    && forall k | 0 <= k < n :: Retryable(script(k))
  }

  /** Every script has a deciding attempt. */
  lemma {:induction false} SomeAttemptDecides(maxRetries: nat, script: nat -> Outcome) returns (n: nat)
    ensures Decides(maxRetries, script, n)
  {
    if maxRetries == 0 {
      n := 0;
    } else {
      n := SomeAttemptDecides(maxRetries - 1, script);
      if Retryable(script(n)) {
        n := maxRetries;
      }
    }
  }

  lemma {:induction false} RequestedFrom(maxRetries: nat, script: nat -> Outcome, cancelled: nat -> bool,
                                         attempt: nat, n: nat)
    requires attempt <= n && attempt <= 37 && Decides(maxRetries, script, n)
    requires forall k :: !cancelled(k)
    ensures Requested(maxRetries, script, cancelled, attempt)
         == if n <= 37 then (ResponseOf(script(n)), n + 1) else (Panicked, 38)
    decreases n - attempt
  {
    hide BackoffPanics;
    if attempt < n {
      if attempt == 37 {
        BackoffOverflows();
      } else {
        BackoffAsIntended(attempt + 1);
        RequestedFrom(maxRetries, script, cancelled, attempt + 1, n);
      }
    }
  }

  /** Uncancelled, the loop refines the reference - gives the deciding outcome, after
      exactly the attempts up to it - if and only if that outcome comes within 37
      retries. If it comes later, or never, the loop panics at the 38th. */
  lemma RetryRefinesReference(maxRetries: nat, script: nat -> Outcome, cancelled: nat -> bool, n: nat)
    requires Decides(maxRetries, script, n) && forall k :: !cancelled(k)
    ensures var (r, attempts) := Requested(maxRetries, script, cancelled, 0);
            Delivers(r, script(n)) && attempts == n + 1 <==> n <= 37
    ensures n > 37 ==> Requested(maxRetries, script, cancelled, 0) == (Panicked, 38)
  {
    RequestedFrom(maxRetries, script, cancelled, 0, n);
  }

  /** Cancelled or not, no more than MaxRetries + 1 attempts are made, every one but
      the last failed transiently, and cancellation is the only early end. */
  lemma {:induction false} AttemptsAreBounded(maxRetries: nat, script: nat -> Outcome, cancelled: nat -> bool,
                                              attempt: nat)
    requires attempt <= maxRetries
    ensures var (r, attempts) := Requested(maxRetries, script, cancelled, attempt);
            && attempt < attempts <= maxRetries + 1
            && (forall k | attempt <= k < attempts - 1 :: Retryable(script(k)))
            && (r.Cancelled? ==> attempts <= maxRetries && cancelled(attempts) && Retryable(script(attempts - 1)))
            && (r.Body? || r.Failed? ==> Delivers(r, script(attempts - 1)) &&
                                         (attempts == maxRetries + 1 || !Retryable(script(attempts - 1))))
    decreases maxRetries - attempt
  {
    hide BackoffPanics;
    if Transient(script(attempt)) && attempt < maxRetries && !BackoffPanics(attempt + 1) && !cancelled(attempt + 1) {
      AttemptsAreBounded(maxRetries, script, cancelled, attempt + 1);
    }
  }

  /** An upstream that never recovers brings the process down exactly when more than
      37 retries are configured. */
  lemma HopelessUpstreamPanicsExactlyWhen(maxRetries: nat, script: nat -> Outcome, cancelled: nat -> bool)
    requires forall k :: Retryable(script(k)) && !cancelled(k)
    ensures Requested(maxRetries, script, cancelled, 0).0 == Panicked <==> maxRetries > 37
  {
    RetryRefinesReference(maxRetries, script, cancelled, maxRetries);
  }
}
