/** The retry loop around one downstream call (pkg/gateway/client.go), against any
    behaviour of the network, the caller's context and the jitter. */
module Retry {

  const TWO63 := 0x8000_0000_0000_0000
  const TWO64 := 0x1_0000_0000_0000_0000
  const MAX_INT64 := TWO63 - 1

  predicate Int64(x: int) { -TWO63 <= x < TWO63 }

  /** Two's-complement wrap-around of a 64-bit result. */
  function Wrap(x: int): (r: int)
    ensures Int64(r)
  {
    var m := x % TWO64;
    if m < TWO63 then m else m - TWO64
  }

  function Pow2(n: nat): (p: nat)
    ensures p >= 1
  {
    if n == 0 then 1 else 2 * Pow2(n - 1)
  }

  // ------------------------------------------------------------ backoff

  const MILLISECOND := 1_000_000
  const BACKOFF_CAP := 2000 * MILLISECOND

  /** The wait before retry `k`, in nanoseconds and before jitter, in the machine's
      arithmetic: a shift, two multiplications that may overflow, and the cap. */
  function Backoff(k: nat): int
    requires k >= 1
  {
    var nanos := Wrap(Wrap(100 * Wrap(Pow2(k - 1))) * MILLISECOND);
    if nanos > BACKOFF_CAP then BACKOFF_CAP else nanos
  }

  /** The documented schedule: 100 ms, 200 ms, 400 ms, ... up to the cap. */
  function Schedule(k: nat): int
    requires k >= 1
  {
    var nanos := 100 * Pow2(k - 1) * MILLISECOND;
    if nanos > BACKOFF_CAP then BACKOFF_CAP else nanos
  }

  /** 100 ms is 390625 * 2^8 ns, so these are the bits of its mantissa that decide
      the sign of the wrapped product. */
  const MANTISSA := 390625

  predicate OnSchedule(k: nat) {
    k <= 56 && MANTISSA / Pow2(56 - k) % 2 == 0
  }

  lemma WrapIs(x: int, q: int, r: int)
    requires x == q * TWO64 + r && Int64(r)
    ensures Wrap(x) == r
  {
    if r >= 0 {
      DivModUnique(x, q, r);
    } else {
      DivModUnique(x, q - 1, r + TWO64);
    }
  }

  lemma DivModUnique(x: int, q: int, r: int)
    requires x == q * TWO64 + r && 0 <= r < TWO64
    ensures x % TWO64 == r
  {
  }

  lemma WrapQuotient(x: int) returns (q: int)
    ensures x == q * TWO64 + Wrap(x) && Int64(Wrap(x))
  {
    q := x / TWO64 + if Wrap(x) < 0 then 1 else 0;
  }

  lemma WrapTimes(a: int, b: int)
    ensures Wrap(a * Wrap(b)) == Wrap(a * b)
  {
    var q := WrapQuotient(b);
    var s := WrapQuotient(a * b);
    hide Wrap, Int64;
    Distribute(a, q, Wrap(b), b);
    WrapIs(a * Wrap(b), s - a * q, Wrap(a * b));
  }

  lemma Distribute(a: int, q: int, w: int, b: int)
    requires b == q * TWO64 + w
    ensures a * b == a * q * TWO64 + a * w
  {
  }

  lemma BackoffNanos(k: nat)
    requires k >= 1
    ensures Wrap(Wrap(100 * Wrap(Pow2(k - 1))) * MILLISECOND) == Wrap(MANTISSA * Pow2(k + 7))
  {
    WrapTimes(100, Pow2(k - 1));
    WrapTimes(MILLISECOND, 100 * Pow2(k - 1));
    hide Pow2;
    Pow2Small();
    Pow2Sum(k - 1, 8);
  }

  lemma {:induction false} Pow2Sum(a: nat, b: nat)
    ensures Pow2(a + b) == Pow2(a) * Pow2(b)
  {
    if b > 0 {
      Pow2Sum(a, b - 1);
    }
  }

  lemma {:induction false} Pow2Monotone(a: nat, b: nat)
    requires a <= b
    ensures Pow2(a) <= Pow2(b)
  {
    if a < b { Pow2Monotone(a, b - 1); }
  }

  lemma Pow2Small()
    ensures Pow2(0) == 1 && Pow2(1) == 2 && Pow2(3) == 8 && Pow2(5) == 32 && Pow2(8) == 256
  {
  }

  lemma Pow2Constants()
    ensures Pow2(63) == TWO63 && Pow2(64) == TWO64 && Pow2(19) == 524288 && Pow2(32) == 0x1_0000_0000
  {
    hide Pow2;
    Pow2Small();
    Pow2Sum(8, 8);
    Pow2Sum(16, 3);
    Pow2Sum(16, 16);
    Pow2Sum(32, 16);
    Pow2Sum(48, 8);
    Pow2Sum(56, 5);
    Pow2Sum(61, 1);
    Pow2Sum(62, 1);
    Pow2Sum(63, 1);
  }

  lemma SplitProduct(p: int, q: int, t: int, r: int)
    requires 0 <= r < p && q >= 1
    ensures (p * t + r) * q == t * (p * q) + r * q
    ensures 0 <= r * q < p * q
  {
    assert (p - r) * q >= 1 * 1 by { Positive(p - r, q); }
  }

  lemma Positive(a: int, b: int)
    requires a >= 1 && b >= 1
    ensures a * b >= a && a * b >= b
  {
  }

  /** The product splits at bit 63: the quotient's parity is the sign bit. */
  lemma SignBit(m: int, p: int, q: int, t: int, r: int)
    requires p * q == TWO63 && q >= 1 && m == p * t + r && 0 <= r < p
    ensures 0 <= r * q < TWO63
    ensures Wrap(m * q) == if t % 2 == 0 then r * q else r * q - TWO63
  {
    SplitProduct(p, q, t, r);
    var low := r * q;
    assert m * q == t * TWO63 + low;
    WrapIs(m * q, t / 2 + t % 2, if t % 2 == 0 then low else low - TWO63);
  }

  lemma OddRemainder(p: int, t: int, r: int)
    requires MANTISSA == p * t + r && p % 2 == 0
    ensures r != 0
  {
    assert p == 2 * (p / 2);
    assert p * t == 2 * ((p / 2) * t);
  }

  /** Within 56 retries the wrapped product is the whole product below bit 63, or negative. */
  lemma WrappedProduct(k: nat)
    requires 1 <= k <= 56
    ensures var p, q := Pow2(56 - k), Pow2(k + 7);
            var r := MANTISSA % p;
            if OnSchedule(k) then Wrap(MANTISSA * q) == r * q && r >= 1
            else Wrap(MANTISSA * q) < 0
  {
    hide Pow2;
    Pow2Constants();
    var p, q := Pow2(56 - k), Pow2(k + 7);
    Pow2Sum(56 - k, k + 7);
    var t, r := MANTISSA / p, MANTISSA % p;
    Pow2Small();
    if k < 56 { Pow2Sum(55 - k, 1); }
    SignBit(MANTISSA, p, q, t, r);
    if k < 56 {
      OddRemainder(p, t, r);
    }
  }

  /** The code keeps to the documented schedule exactly when the bit that reaches the
      sign position is clear (so for the first 37 retries, and a few later ones);
      otherwise the product overflows and there is no wait at all. */
  lemma BackoffExact(k: nat)
    requires k >= 1
    ensures Backoff(k) == Schedule(k) <==> OnSchedule(k)
    ensures !OnSchedule(k) ==> Backoff(k) <= 0
  {
    BackoffNanos(k);
    ScheduleLarge(k);
    if k > 56 {
      BeyondTheWord(k);
    } else {
      WrappedProduct(k);
      if OnSchedule(k) {
        if k <= 37 { Unwrapped(k); } else { StillLarge(k, MANTISSA % Pow2(56 - k)); }
      }
    }
  }

  lemma ScheduleLarge(k: nat)
    requires k >= 1
    ensures Schedule(k) > 0
    ensures k >= 6 ==> Schedule(k) == BACKOFF_CAP
  {
    if k >= 6 {
      Pow2Small();
      Pow2Monotone(5, k - 1);
    }
  }

  lemma BeyondTheWord(k: nat)
    requires k >= 57
    ensures Wrap(MANTISSA * Pow2(k + 7)) == 0
  {
    hide Pow2;
    Pow2Constants();
    Pow2Sum(64, k - 57);
    WrapIs(MANTISSA * Pow2(k + 7), MANTISSA * Pow2(k - 57), 0);
  }

  lemma Unwrapped(k: nat)
    requires 1 <= k <= 37
    ensures MANTISSA % Pow2(56 - k) == MANTISSA
    ensures MANTISSA * Pow2(k + 7) == 100 * Pow2(k - 1) * MILLISECOND
  {
    hide Pow2;
    Pow2Constants();
    Pow2Small();
    Pow2Monotone(19, 56 - k);
    Pow2Sum(k - 1, 8);
  }

  lemma StillLarge(k: nat, r: nat)
    requires 38 <= k <= 56 && r >= 1
    ensures r * Pow2(k + 7) > BACKOFF_CAP
  {
    hide Pow2;
    Pow2Constants();
    Pow2Monotone(32, k + 7);
    Positive(r, Pow2(k + 7));
  }

  lemma FirstRetriesOnSchedule(k: nat)
    requires 1 <= k <= 37
    ensures Backoff(k) == Schedule(k)
  {
    hide Pow2;
    Pow2Constants();
    Pow2Monotone(19, 56 - k);
    BackoffExact(k);
  }

  /** Retry 38 is the first whose wait is lost to overflow. */
  lemma FirstOffSchedule()
    ensures !OnSchedule(38) && Backoff(38) <= 0 && Schedule(38) == BACKOFF_CAP
  {
    Pow2Sum(9, 9);
    assert Pow2(9) == 512;
    BackoffExact(38);
    ScheduleLarge(38);
  }

  /** The jitter is at most half of the backoff either way. */
  predicate Jitter(backoff: int, jitter: int) {
    2 * jitter <= (if backoff < 0 then -backoff else backoff)
    && 2 * jitter >= (if backoff < 0 then backoff else -backoff)
  }

  /** Every wait is at most three seconds, overflow or not; on schedule it is at
      least half the documented backoff. */
  lemma WaitBounded(k: nat, jitter: int)
    requires k >= 1 && Jitter(Backoff(k), jitter)
    ensures 2 * (Backoff(k) + jitter) <= 3 * Schedule(k) <= 6000 * MILLISECOND
    ensures OnSchedule(k) ==> 2 * (Backoff(k) + jitter) >= Schedule(k)
  {
    BackoffExact(k);
    ScheduleLarge(k);
  }

  // ------------------------------------------------------------ the loop

  /** What one attempt meets. */
  datatype Outcome =
    | TransportError
    | ReadError
    | TooLarge
    | Response(status: int)

  /** What surrounds attempt `i`: whether the context is cancelled during the wait
      before it, and what it meets if it is sent. */
  datatype Event = Event(cancelled: bool, outcome: Outcome)

  datatype Failure = HttpFailed | ReadFailed | BodyTooLarge | Upstream(status: int) | Cancelled

  /** What the loop returns: a response, an error, or neither. */
  datatype Result = Reply(status: int) | Failed(error: Failure) | Neither

  type Network = nat -> Event

  predicate IsIdempotent(verb: string) {
    verb == "GET" || verb == "HEAD" || verb == "OPTIONS"
  }

  /** The number of attempts, in 64-bit arithmetic. */
  function Attempts(maxRetries: int, verb: string): (n: int)
    requires Int64(maxRetries)
  {
    if maxRetries > 0 && IsIdempotent(verb) then Wrap(maxRetries + 1) else 1
  }

  /** An outcome after which the loop goes on, if attempts are left. */
  function Retryable(outcome: Outcome, verb: string, last: bool): (failure: Result)
    ensures !failure.Reply?
  {
    match outcome
    case TransportError => Failed(HttpFailed)
    case ReadError => Failed(ReadFailed)
    case TooLarge => Neither
    case Response(status) =>
      if status >= 500 && IsIdempotent(verb) && !last then Failed(Upstream(status)) else Neither
  }

  /** How attempt `i` ends the loop: `Neither` when the loop goes on. */
  function Ends(net: Network, verb: string, attempts: int, i: nat): Result {
    if i > 0 && net(i).cancelled then Failed(Cancelled)
    else if net(i).outcome.TooLarge? then Failed(BodyTooLarge)
    else if Retryable(net(i).outcome, verb, i >= attempts - 1).Failed? then Neither
    else if net(i).outcome.Response? then Reply(net(i).outcome.status)
    else Neither
  }

  /** The loop from attempt `i` on; `lastErr` is what an earlier attempt left. */
  function Loop(net: Network, verb: string, attempts: int, i: nat, lastErr: Result): (Result, nat)
    decreases attempts - i
  {
    if i >= attempts then (lastErr, i)
    else
      var end := Ends(net, verb, attempts, i);
      if end.Failed? && end.error.Cancelled? then (end, i)
      else if end != Neither then (end, i + 1)
      else Loop(net, verb, attempts, i + 1, Retryable(net(i).outcome, verb, i >= attempts - 1))
  }

  method DoWithRetry(net: Network, maxRetries: int, verb: string) returns (result: Result, sent: nat)
    requires Int64(maxRetries)
    ensures (result, sent) == Loop(net, verb, Attempts(maxRetries, verb), 0, Neither)
  {
    var attempts := 1;
    if maxRetries > 0 && IsIdempotent(verb) {
      attempts := Wrap(maxRetries + 1);
    }
    var lastErr := Neither;
    var attempt := 0;
    sent := 0;
    while attempt < attempts
      invariant attempt >= 0 && sent == attempt
      invariant !lastErr.Reply?
      invariant Loop(net, verb, attempts, attempt, lastErr) == Loop(net, verb, attempts, 0, Neither)
    {
      if attempt > 0 && net(attempt).cancelled {
        return Failed(Cancelled), sent;
      }
      sent := sent + 1;
      var outcome := net(attempt).outcome;
      if outcome.TransportError? {
        lastErr := Failed(HttpFailed);
      } else if outcome.ReadError? {
        lastErr := Failed(ReadFailed);
      } else if outcome.TooLarge? {
        return Failed(BodyTooLarge), sent;
      } else if outcome.status >= 500 && IsIdempotent(verb) && attempt < attempts - 1 {
        lastErr := Failed(Upstream(outcome.status));
      } else {
        return Reply(outcome.status), sent;
      }
      attempt := attempt + 1;
    }
    return lastErr, sent;
  }

  /** The whole call. */
  function Outcomes(net: Network, maxRetries: int, verb: string): (Result, nat)
    requires Int64(maxRetries)
  {
    Loop(net, verb, Attempts(maxRetries, verb), 0, Neither)
  }

  /** Attempts before `n` all leave the loop going. */
  ghost predicate GoesOnTo(net: Network, verb: string, attempts: int, from: nat, n: nat) {
    forall i :: from <= i < n ==> Ends(net, verb, attempts, i) == Neither
  }

  /** The loop is decided by the first attempt that does not leave it going. */
  lemma {:induction false} FirstEndDecides(net: Network, verb: string, attempts: int, i: nat, lastErr: Result, n: nat)
    requires i <= n && n <= attempts && GoesOnTo(net, verb, attempts, i, n)
    requires n < attempts ==> Ends(net, verb, attempts, n) != Neither
    ensures Loop(net, verb, attempts, i, lastErr)
         == if n < attempts then
              (Ends(net, verb, attempts, n), if Ends(net, verb, attempts, n) == Failed(Cancelled) then n else n + 1)
            else
              (if i == n then lastErr else Retryable(net(n - 1).outcome, verb, true), n)
    decreases attempts - i
  {
    if i < n {
      var lastErr' := Retryable(net(i).outcome, verb, i >= attempts - 1);
      FirstEndDecides(net, verb, attempts, i + 1, lastErr', n);
    }
  }

  /** Requests go out until the first attempt that ends the call: a response that is
      not a retryable 5xx, an oversized body, a cancelled wait, or the last attempt. */
  lemma StopsAtFirst(net: Network, maxRetries: int, verb: string, n: nat)
    requires Int64(maxRetries)
    requires var attempts := Attempts(maxRetries, verb);
             n < attempts && GoesOnTo(net, verb, attempts, 0, n) && Ends(net, verb, attempts, n) != Neither
    ensures var end := Ends(net, verb, Attempts(maxRetries, verb), n);
            Outcomes(net, maxRetries, verb) == (end, if end == Failed(Cancelled) then n else n + 1)
  {
    FirstEndDecides(net, verb, Attempts(maxRetries, verb), 0, Neither, n);
  }

  /** When every attempt fails retryably, all are used and the last error is returned. */
  lemma AllUsedUp(net: Network, maxRetries: int, verb: string)
    requires Int64(maxRetries)
    requires var attempts := Attempts(maxRetries, verb);
             attempts >= 1 && GoesOnTo(net, verb, attempts, 0, attempts)
    ensures var attempts := Attempts(maxRetries, verb);
            Outcomes(net, maxRetries, verb)
            == (if net(attempts - 1).outcome.TransportError? then Failed(HttpFailed) else Failed(ReadFailed), attempts)
  {
    var attempts := Attempts(maxRetries, verb);
    assert Ends(net, verb, attempts, attempts - 1) == Neither;
    FirstEndDecides(net, verb, attempts, 0, Neither, attempts);
  }

  lemma {:induction false} SentBounded(net: Network, verb: string, attempts: int, i: nat, lastErr: Result)
    requires i <= attempts && !lastErr.Reply?
    ensures var (result, sent) := Loop(net, verb, attempts, i, lastErr);
            i <= sent <= attempts
            && (i < attempts && (i == 0 || !net(i).cancelled) ==> i < sent)
            && (result == Neither ==> i == attempts && lastErr == Neither)
            && (result.Reply? ==> sent > i && net(sent - 1).outcome == Response(result.status))
    decreases attempts - i
  {
    if i < attempts && Ends(net, verb, attempts, i) == Neither {
      SentBounded(net, verb, attempts, i + 1, Retryable(net(i).outcome, verb, i >= attempts - 1));
    }
  }

  /** A method that is not idempotent is sent exactly once; an idempotent one at
      least once and at most maxRetries + 1 times. A response returned is the one
      the last request met. */
  lemma AttemptsBounded(net: Network, maxRetries: int, verb: string)
    requires Int64(maxRetries) && !(maxRetries == MAX_INT64 && IsIdempotent(verb))
    ensures var (result, sent) := Outcomes(net, maxRetries, verb);
            1 <= sent
            && (!IsIdempotent(verb) || maxRetries <= 0 ==> sent == 1)
            && (maxRetries > 0 ==> sent <= maxRetries + 1)
            && (result.Reply? ==> net(sent - 1).outcome == Response(result.status))
  {
    SentBounded(net, verb, Attempts(maxRetries, verb), 0, Neither);
  }

  /** What an attempt may be repeated after: no response, one that broke off, or one with
      a status of 500 or more. */
  predicate Repeats(outcome: Outcome) {
    outcome.TransportError? || outcome.ReadError? || (outcome.Response? && outcome.status >= 500)
  }

  /** The first `n` attempts from `from` on may be repeated, and no wait was cancelled. */
  predicate RepeatsTo(net: Network, from: nat, n: nat) {
    (forall j :: from <= j < n ==> Repeats(net(j).outcome))
    && forall j :: from <= j <= n && j > 0 ==> !net(j).cancelled
  }

  lemma {:induction false} LoopSends(net: Network, verb: string, attempts: int, i: nat, lastErr: Result, n: nat)
    requires i <= n && !lastErr.Reply? && (IsIdempotent(verb) || attempts <= 1)
    ensures Loop(net, verb, attempts, i, lastErr).1 > n <==> n < attempts && RepeatsTo(net, i, n)
    decreases attempts - i
  {
    if i < attempts {
      SentBounded(net, verb, attempts, i, lastErr);
      if i < n && Ends(net, verb, attempts, i) == Neither {
        LoopSends(net, verb, attempts, i + 1, Retryable(net(i).outcome, verb, i >= attempts - 1), n);
        assert i > 0 ==> !net(i).cancelled;
      }
    }
  }

  /** A further request goes out exactly for GET, HEAD and OPTIONS, within the retries
      allowed, if every attempt before it met a transport error, a broken body or a status
      of 500 or more, and no wait was cancelled. Any other verb is sent once. */
  lemma ResentExactly(net: Network, maxRetries: int, verb: string, n: nat)
    requires Int64(maxRetries) && !(maxRetries == MAX_INT64 && IsIdempotent(verb)) && n >= 1
    ensures Outcomes(net, maxRetries, verb).1 > n
            <==> verb in {"GET", "HEAD", "OPTIONS"} && n <= maxRetries && RepeatsTo(net, 0, n)
  {
    LoopSends(net, verb, Attempts(maxRetries, verb), 0, Neither, n);
  }

  lemma {:induction false} LoopResult(net: Network, verb: string, attempts: int, i: nat, lastErr: Result)
    requires i < attempts && !lastErr.Reply? && (i == 0 || !net(i).cancelled)
    requires IsIdempotent(verb) || attempts == 1
    ensures var (result, sent) := Loop(net, verb, attempts, i, lastErr);
            i < sent <= attempts && result == ResultAfter(net, verb, attempts, sent)
    decreases attempts - i
  {
    if Ends(net, verb, attempts, i) == Neither && i + 1 < attempts && !net(i + 1).cancelled {
      LoopResult(net, verb, attempts, i + 1, Retryable(net(i).outcome, verb, i >= attempts - 1));
    }
  }

  /** What is returned once this many requests have gone out: a cancellation, if the wait
      for one more was cancelled, and otherwise what the last request met. */
  function ResultAfter(net: Network, verb: string, attempts: int, sent: nat): Result
    requires sent >= 1
  {
    var last := net(sent - 1).outcome;
    if sent < attempts && Repeats(last) && net(sent).cancelled then Failed(Cancelled)
    else
      match last
      case TransportError => Failed(HttpFailed)
      case ReadError => Failed(ReadFailed)
      case TooLarge => Failed(BodyTooLarge)
      case Response(status) => Reply(status)
  }

  /** The result follows from the number of requests sent and what the last one met. */
  lemma ResultExactly(net: Network, maxRetries: int, verb: string)
    requires Int64(maxRetries) && !(maxRetries == MAX_INT64 && IsIdempotent(verb))
    ensures var (result, sent) := Outcomes(net, maxRetries, verb);
            var attempts := if verb in {"GET", "HEAD", "OPTIONS"} && maxRetries > 0 then maxRetries + 1 else 1;
            1 <= sent <= attempts && result == ResultAfter(net, verb, attempts, sent)
  {
    LoopResult(net, verb, Attempts(maxRetries, verb), 0, Neither);
  }

  /** The call never returns neither a response nor an error, with one exception:
      the largest 64-bit retry limit wraps to a negative number of attempts, so that
      an idempotent request is never sent and nothing is reported. */
  lemma NeitherExactly(net: Network, maxRetries: int, verb: string)
    requires Int64(maxRetries)
    ensures Outcomes(net, maxRetries, verb).0 == Neither <==> maxRetries == MAX_INT64 && IsIdempotent(verb)
    ensures Outcomes(net, maxRetries, verb).0 == Neither ==> Outcomes(net, maxRetries, verb).1 == 0
  {
    var attempts := Attempts(maxRetries, verb);
    if attempts >= 1 {
      SentBounded(net, verb, attempts, 0, Neither);
    }
  }

  /** A 5xx met by the last attempt is returned as the response. */
  lemma FinalServerError(net: Network, maxRetries: int, verb: string)
    requires Int64(maxRetries)
    requires var attempts := Attempts(maxRetries, verb);
             attempts >= 1 && GoesOnTo(net, verb, attempts, 0, attempts - 1)
             && (attempts > 1 ==> !net(attempts - 1).cancelled)
             && net(attempts - 1).outcome.Response?
    ensures var attempts := Attempts(maxRetries, verb);
            Outcomes(net, maxRetries, verb) == (Reply(net(attempts - 1).outcome.status), attempts)
  {
    StopsAtFirst(net, maxRetries, verb, Attempts(maxRetries, verb) - 1);
  }
}
