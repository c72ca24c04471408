/** Per-thread poll backoff. Durations are int64 nanoseconds. */
module PollBackoff {
  import opened Int64

  const BASE_DELAY: int := 2_000_000_000
  const IDLE_CAP: int := 30_000_000_000
  const FAILURE_CAP: int := 60_000_000_000

  datatype Backoff = Backoff(failures: nat, delay: int)

  const FIRST_BACKOFF := Backoff(0, BASE_DELAY)

  /** The result of a poll as ApplyPollBackoff looks at it; `messagesIngested` only matters without an error. */
  datatype Outcome =
    | Polled(messagesIngested: int)
    | Retryable(status: int, retryAfter: int)
    | MessagesError(status: int)
    | OtherError

  datatype Reason = Success | Idle | RetryAfter | Failure | Client4xx

  predicate IsClient4xxNon429(status: int) {
    400 <= status < 500 && status != 429
  }

  function Classify(o: Outcome): Reason {
    match o
    case Polled(n) => if n > 0 then Success else Idle
    case Retryable(status, after) => if status == 429 && after > 0 then RetryAfter else Failure
    case MessagesError(status) => if IsClient4xxNon429(status) then Client4xx else Failure
    case OtherError => Failure
  }

  function Min(a: int, b: int): int {
    if a <= b then a else b
  }

  /** The delay that OnFailure computes for the n-th failure in a row, overflow included. */
  function FailureDelay(n: nat): int
    requires n > 0
  {
    Min(if n > 1 then Times(BASE_DELAY, Shifted(n - 1)) else BASE_DELAY, FAILURE_CAP)
  }

  function IdleDelay(delay: int): int {
    Min(Wrap((if delay <= 0 then BASE_DELAY else delay) + BASE_DELAY), IDLE_CAP)
  }

  function Apply(b: Backoff, o: Outcome): Backoff {
    match Classify(o)
    case Success => Backoff(0, BASE_DELAY)
    case Idle => Backoff(0, IdleDelay(b.delay))
    case RetryAfter => Backoff(b.failures + 1, o.retryAfter)
    case Client4xx => Backoff(0, IDLE_CAP)
    case Failure => Backoff(b.failures + 1, FailureDelay(b.failures + 1))
  }

  class BackoffState {
    var failures: nat
    var delay: int

    ghost function Value(): Backoff
      reads this
    {
      Backoff(failures, delay)
    }

    constructor ()
      ensures Value() == Backoff(0, 2_000_000_000)
    {
      failures, delay := 0, BASE_DELAY;
    }

    method EnsureBaseDelay() returns (current: int)
      modifies this`delay
      ensures current == delay == if old(delay) <= 0 then BASE_DELAY else old(delay)
    {
      if delay <= 0 {
        delay := BASE_DELAY;
      }
      current := delay;
    }

    method OnSuccess()
      modifies this
      ensures Value() == Backoff(0, BASE_DELAY)
    {
      failures := 0;
      delay := BASE_DELAY;
    }

    method OnIdle()
      modifies this
      ensures Value() == Backoff(0, IdleDelay(old(delay)))
    {
      var current := EnsureBaseDelay();
      failures := 0;
      var next := Wrap(current + BASE_DELAY);
      if next > IDLE_CAP {
        next := IDLE_CAP;
      }
      delay := next;
    }

    method OnRetryAfter(d: int)
      modifies this
      ensures failures == old(failures) + 1
      ensures delay == if d > 0 then d else FailureDelay(failures)
    {
      if d <= 0 {
        OnFailure();
        return;
      }
      failures := failures + 1;
      delay := d;
    }

    method OnFailure()
      modifies this
      ensures failures == old(failures) + 1
      ensures delay == FailureDelay(failures)
    {
      failures := failures + 1;
      var d := BASE_DELAY;
      if failures > 1 {
        d := Times(BASE_DELAY, Shifted(failures - 1));
      }
      if d > FAILURE_CAP {
        d := FAILURE_CAP;
      }
      delay := d;
    }

    /** ApplyPollBackoff */
    method ApplyOutcome(o: Outcome) returns (newDelay: int, reason: Reason)
      modifies this
      ensures Value() == Apply(old(Value()), o)
      ensures newDelay == delay && reason == Classify(o)
    {
      match o {
        case Polled(n) =>
          if n > 0 {
            OnSuccess();
            return delay, Success;
          }
          OnIdle();
          return delay, Idle;
        case Retryable(status, after) =>
          if status == 429 && after > 0 {
            OnRetryAfter(after);
            return delay, RetryAfter;
          }
        case MessagesError(status) =>
          if IsClient4xxNon429(status) {
            failures := 0;
            delay := IDLE_CAP;
            return delay, Client4xx;
          }
        case OtherError =>
      }
      OnFailure();
      newDelay, reason := delay, Failure;
    }
  }

  // ----- whole traces

  function ApplyAll(b: Backoff, trace: seq<Outcome>): Backoff {
    if trace == [] then b else Apply(ApplyAll(b, trace[..|trace| - 1]), trace[|trace| - 1])
  }

  /** Everything is a failure but a completed poll and an answer 400 to 499 other than 429. */
  predicate CountsAsFailure(o: Outcome) {
    match o
    case Polled(_) => false
    case Retryable(_, _) => true
    case MessagesError(status) => status < 400 || status >= 500 || status == 429
    case OtherError => true
  }

  /** A 429 that says when to come back. */
  predicate SaysWhen(o: Outcome) {
    o.Retryable? && o.status == 429 && o.retryAfter > 0
  }

  /** A failure after which the delay is computed. */
  predicate ComputesDelay(o: Outcome) {
    CountsAsFailure(o) && !SaysWhen(o)
  }

  /** From position `k` on every outcome is a failure, and `k` cannot be moved further back. */
  predicate FailingSince(trace: seq<Outcome>, k: nat) {
    && k <= |trace|
    && (forall i | k <= i < |trace| :: CountsAsFailure(trace[i]))
    && (k > 0 ==> !CountsAsFailure(trace[k - 1]))
  }

  /** The counter is the number of failures since the last poll that was not one. */
  lemma {:induction false} FailuresSinceReset(b: Backoff, trace: seq<Outcome>) returns (k: nat)
    ensures FailingSince(trace, k)
    ensures ApplyAll(b, trace).failures == |trace| - k + if k == 0 then b.failures else 0
  {
    if trace == [] {
      k := 0;
    } else {
      var n := |trace| - 1;
      k := FailuresSinceReset(b, trace[..n]);
      if !CountsAsFailure(trace[n]) {
        k := n + 1;
      } else {
        assert forall i | k <= i < n :: trace[i] == trace[..n][i];
        assert k > 0 ==> trace[k - 1] == trace[..n][k - 1];
      }
    }
  }

  /** Server-given delays are int64 durations. */
  predicate InRange(trace: seq<Outcome>) {
    forall o | o in trace && o.Retryable? :: o.retryAfter < LIMIT
  }

  /** The poll before the last was told to come back so late that two more seconds do not fit in 64 bits. */
  predicate AfterHugeRetryAfter(trace: seq<Outcome>) {
    && |trace| >= 2
    && SaysWhen(trace[|trace| - 2])
    && trace[|trace| - 2].retryAfter + 2_000_000_000 >= 0x8000_0000_0000_0000
  }

  /** The idle increment stays within (2s, 30s] exactly when it fits in 64 bits. */
  lemma IdleDelayFitsIff(delay: int)
    requires delay < LIMIT
    ensures BASE_DELAY < IdleDelay(delay) <= IDLE_CAP <==> delay + BASE_DELAY < LIMIT
    ensures IdleDelay(delay) != BASE_DELAY
  {
  }

  /** After every trace: a poll that found nothing is followed by more than 2s and at most 30s, unless the poll before
      it was told to come back about 292 years later. */
  lemma DelayAfterIdleIff(trace: seq<Outcome>)
    requires trace != [] && trace[|trace| - 1].Polled? && trace[|trace| - 1].messagesIngested <= 0 && InRange(trace)
    ensures 2_000_000_000 < ApplyAll(FIRST_BACKOFF, trace).delay <= 30_000_000_000 <==> !AfterHugeRetryAfter(trace)
  {
    var n := |trace| - 1;
    var before := ApplyAll(FIRST_BACKOFF, trace[..n]);
    if n > 0 {
      var last := trace[..n][n - 1];
      assert last == trace[n - 1] && last in trace;
      assert before == Apply(ApplyAll(FIRST_BACKOFF, trace[..n][..n - 1]), last);
    }
    IdleDelayFitsIff(before.delay);
  }

  /** After every trace that ends in n failures, the last of them without a server-given delay, the delay is
      min(2s * 2^(n-1), 60s) for exactly the counts up to 33 and eight more, and not positive for all others. */
  lemma DelayAfterFailures(trace: seq<Outcome>, k: nat)
    requires FailingSince(trace, k) && k < |trace| && ComputesDelay(trace[|trace| - 1])
    ensures var n, delay := |trace| - k, ApplyAll(FIRST_BACKOFF, trace).delay;
            && (delay == IntendedDelay(n) <==> n <= 33 || LuckyCount(n))
            && (!(n <= 33 || LuckyCount(n)) ==> delay <= 0)
  {
    var k' := FailuresSinceReset(FIRST_BACKOFF, trace);
    FailingSinceUnique(trace, k, k');
    FailureDelayAsIntendedIff(|trace| - k);
    hide FailureDelay, IntendedDelay;
  }

  lemma FailingSinceUnique(trace: seq<Outcome>, k: nat, l: nat)
    requires FailingSince(trace, k) && FailingSince(trace, l)
    ensures k == l
  {
  }

  /** The delay after every trace. A success earns 2s, an idle poll more than 2s and at most 30s (unless the poll
      before it was given a delay that leaves no room), a server-given delay is kept, another 4xx waits 30s, and the
      n-th failure in a row waits min(2s * 2^(n-1), 60s) while n <= 33. */
  lemma DelayAfterLast(trace: seq<Outcome>, k: nat)
    requires trace != [] && FailingSince(trace, k)
    ensures var last, delay, failed := trace[|trace| - 1], ApplyAll(FIRST_BACKOFF, trace).delay, |trace| - k;
            if last.Polled? && last.messagesIngested > 0 then delay == 2_000_000_000
            else if last.Polled? then
              InRange(trace) ==> (2_000_000_000 < delay <= 30_000_000_000 <==> !AfterHugeRetryAfter(trace))
            else if SaysWhen(last) then delay == last.retryAfter
            else if last.MessagesError? && 400 <= last.status < 500 && last.status != 429 then delay == 30_000_000_000
            else 1 <= failed <= 33 ==> delay == Min(2_000_000_000 * Pow2(failed - 1), 60_000_000_000)
  {
    var last := trace[|trace| - 1];
    if ComputesDelay(last) {
      DelayAfterFailures(trace, k);
    }
    if last.Polled? && last.messagesIngested <= 0 && InRange(trace) {
      DelayAfterIdleIff(trace);
    }
    hide Pow2, FailureDelay, IdleDelay;
  }

  /** Thirty-four failed polls in a row leave no delay at all. */
  lemma ThirtyFourFailures()
    ensures ApplyAll(FIRST_BACKOFF, seq(34, _ => OtherError)).delay <= 0
  {
    var trace := seq(34, _ => OtherError);
    DelayAfterFailures(trace, 0);
  }

  /** `k` idle polls in a row after a success wait 4s, 6s, ... and stay at 30s. */
  lemma {:induction false} IdleRamp(b: Backoff, idle: seq<Outcome>)
    requires b.delay == BASE_DELAY
    requires forall i | 0 <= i < |idle| :: idle[i].Polled? && idle[i].messagesIngested <= 0
    ensures ApplyAll(b, idle).delay == Min(2_000_000_000 * (|idle| + 1), 30_000_000_000)
  {
    if idle != [] {
      IdleRamp(b, idle[..|idle| - 1]);
    }
  }

  // ----- the exponential and its overflow

  /** What OnFailure is meant to compute. */
  function IntendedDelay(n: nat): int
    requires n > 0
  {
    Min(2_000_000_000 * Pow2(n - 1), 60_000_000_000)
  }

  /** 33 is the last failure whose exponential fits in 64 bits. */
  lemma ExponentialFitsUpTo33(n: nat)
    requires n > 0
    ensures BASE_DELAY * Pow2(n - 1) < LIMIT <==> n <= 33
  {
    Pow2At32();
    if n <= 33 {
      Pow2Monotone(n - 1, 32);
    } else {
      Pow2Monotone(33, n - 1);
    }
  }

  /** The counts above 33 for which the wrapped product still lands above the cap. */
  predicate LuckyCount(n: nat) {
    n in {37, 41, 42, 45, 47, 50, 51, 53}
  }

  /** The exponential is as intended exactly up to 33 failures and for eight later counts; at every other count
      the product has wrapped to zero or below. */
  lemma FailureDelayAsIntendedIff(n: nat)
    requires n > 0
    ensures FailureDelay(n) == IntendedDelay(n) <==> n <= 33 || LuckyCount(n)
    ensures !(n <= 33 || LuckyCount(n)) ==> FailureDelay(n) <= 0
  {
    assert Pow2(5) == 32;
    if n > 6 {
      Pow2Monotone(5, n - 1);
    }
    if n <= 33 {
      ExponentialFitsUpTo33(n);
      WrapFactor(BASE_DELAY, Pow2(n - 1));
      if n > 1 {
        WrapInRange(BASE_DELAY * Pow2(n - 1));
      }
    } else {
      WrapFactor(BASE_DELAY, Pow2(n - 1));
      if n <= 54 {
        if n <= 43 { WrappedProductsTo43(n); } else { WrappedProductsTo54(n); }
      } else {
        VanishingProducts(n);
      }
    }
  }

  /** The products for 34 to 43 failures, one line each: the power of two and how often 2^64 is taken off. */
  lemma WrappedProductsTo43(n: nat)
    requires 34 <= n <= 43
    ensures Wrap(BASE_DELAY * Pow2(n - 1)) > FAILURE_CAP <==> LuckyCount(n)
    ensures !LuckyCount(n) ==> Wrap(BASE_DELAY * Pow2(n - 1)) <= 0
  {
    hide Wrap;
    match n - 34
    case 0 => Product(n, 0x1, 1);
    case 1 => Product(n, 0x2, 2);
    case 2 => Product(n, 0x4, 4);
    case 3 => Product(n, 0x8, 7);
    case 4 => Product(n, 0x10, 15);
    case 5 => Product(n, 0x20, 30);
    case 6 => Product(n, 0x40, 60);
    case 7 => Product(n, 0x80, 119);
    case 8 => Product(n, 0x100, 238);
    case 9 => Product(n, 0x200, 477);
  }

  /** The same for 44 to 54 failures. */
  lemma WrappedProductsTo54(n: nat)
    requires 44 <= n <= 54
    ensures Wrap(BASE_DELAY * Pow2(n - 1)) > FAILURE_CAP <==> LuckyCount(n)
    ensures !LuckyCount(n) ==> Wrap(BASE_DELAY * Pow2(n - 1)) <= 0
  {
    hide Wrap;
    assert Pow2(10) == 0x400 && Pow2(15) == 0x8000;
    match n - 34
    case 10 => Product(n, 0x400, 954);
    case 11 => Product(n, 0x800, 1907);
    case 12 => Product(n, 0x1000, 3815);
    case 13 => Product(n, 0x2000, 7629);
    case 14 => Product(n, 0x4000, 15259);
    case 15 => Product(n, 0x8000, 30518);
    case 16 => Product(n, 0x10000, 61035);
    case 17 => Product(n, 0x20000, 122070);
    case 18 => Product(n, 0x40000, 244141);
    case 19 => Product(n, 0x80000, 488281);
    case 20 => Product(n, 0x100000, 976563);
  }

  lemma Product(n: nat, p: nat, k: int)
    requires n > 33 && Pow2(n - 34) == p
    requires -LIMIT <= BASE_DELAY * 0x2_0000_0000 * p - k * MODULUS < LIMIT
    ensures Wrap(BASE_DELAY * Pow2(n - 1)) == BASE_DELAY * 0x2_0000_0000 * p - k * MODULUS
  {
    Pow2At32();
    Pow2Adds(33, n - 34);
    assert BASE_DELAY * Pow2(n - 1) == BASE_DELAY * 0x2_0000_0000 * p - k * MODULUS + k * MODULUS;
    WrapShift(BASE_DELAY * 0x2_0000_0000 * p - k * MODULUS, k);
  }

  lemma Pow2At54()
    ensures Pow2(54) == 0x40_0000_0000_0000
  {
    Pow2At32();
    Pow2Adds(8, 8);
    Pow2Adds(16, 6);
    Pow2Adds(32, 22);
    assert Pow2(8) == 0x100 && Pow2(6) == 0x40;
  }

  /** 2s is 2^10 times an odd number of nanoseconds, so from a shift of 54 on the product is a multiple of 2^64. */
  lemma VanishingProducts(n: nat)
    requires n > 54
    ensures Wrap(BASE_DELAY * Pow2(n - 1)) == 0
  {
    Pow2At54();
    Pow2Adds(54, n - 55);
    hide Pow2;
    var k := 1953125 * Pow2(n - 55);
    assert BASE_DELAY * Pow2(54) == 1953125 * MODULUS;
    assert BASE_DELAY * Pow2(n - 1) == 0 + k * MODULUS;
    WrapShift(0, k);
  }
}
