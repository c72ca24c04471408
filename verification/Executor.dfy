/** TeamsRequestExecutor.Do: send, classify, back off and retry. */
module Executor {
  import opened Text
  import opened Int64

  /** The configuration; `jitter` is what applyJitter turns a capped delay into on its n-th use. */
  datatype Config = Config(maxRetries: int, baseBackoff: int, maxBackoff: int, jitter: (nat, int) -> int) {

    function Retries(): nat {
      if maxRetries < 0 then 0 else maxRetries
    }

    function Base(): int {
      if baseBackoff <= 0 then 500_000_000 else baseBackoff
    }

    function Cap(): int {
      if maxBackoff <= 0 then 10_000_000_000 else maxBackoff
    }
  }

  /** A request with its body, if it has one, and whether GetBody can make copies of it. */
  datatype Request<B> = Request(body: Option<B>, hasGetBody: bool)

  datatype NetworkError = ErrCanceled | ErrDeadline | ErrTLSOrDNS | ErrTimeout | ErrOther

  datatype Reply<R> = NoResponse(error: NetworkError, contextDone: bool) | Response(response: R)

  /** What the response classifier says: fine, a RetryableError with its Retry-After, or another error. */
  datatype Verdict = Accepted | RetryLater(retryAfter: int) | Rejected

  /** Everything the outside world decides about one attempt. */
  datatype Attempt<B, R> = Attempt(
    cancelledBefore: bool,
    bodyCopy: Option<B>,       // what GetBody returns; None is an error
    reply: Reply<R>,
    cancelledInSleep: bool
  )

  datatype Action<B> = Send(body: Option<B>) | Sleep(duration: int)

  datatype Result<R> =
    | Ok(response: R)
    | ErrorResponse(response: R)
    | ErrorNetwork(error: NetworkError)
    | ErrorCancelled
    | ErrorBodyMissing
    | ErrorBodyCopy

  predicate IsRetryableNetworkError(error: NetworkError, contextDone: bool) {
    match error
    case ErrCanceled => false
    case ErrDeadline => !contextDone
    case ErrTLSOrDNS => false
    case ErrTimeout => true
    case ErrOther => false
  }

  /** requestForAttempt: the body that attempt `k` (counted from 0) sends, or why it cannot be sent. */
  datatype Prepared<B> = Ready(body: Option<B>) | MissingBody | CopyFailed

  function Prepare<B, R>(req: Request<B>, k: nat, a: Attempt<B, R>): Prepared<B> {
    if req.hasGetBody then
      if a.bodyCopy.None? then CopyFailed else Ready(a.bodyCopy)
    else if k == 0 then Ready(req.body)
    else if req.body.Some? then MissingBody
    else Ready(None)
  }

  /** computeBackoff before the jitter, in 64-bit arithmetic. */
  function CappedBackoff(c: Config, retry: nat): int
    requires retry > 0
  {
    var backoff := if retry > 1 then Times(c.Base(), Shifted(retry - 1)) else c.Base();
    if backoff > c.Cap() then c.Cap() else backoff
  }

  function Backoff(c: Config, retry: nat): int
    requires retry > 0
  {
    c.jitter(retry, CappedBackoff(c, retry))
  }

  // ----- one attempt, seen by itself

  /** The attempt ends in a way that Do would retry, retries left or not. */
  predicate Retryable<B, R>(classify: R -> Verdict, a: Attempt<B, R>) {
    match a.reply
    case NoResponse(error, done) => IsRetryableNetworkError(error, done)
    case Response(r) => classify(r).RetryLater?
  }

  /** How long to wait before the attempt after `k`: a positive Retry-After, else the computed backoff. */
  function Wait<B, R>(c: Config, classify: R -> Verdict, k: nat, a: Attempt<B, R>): int {
    if a.reply.Response? && classify(a.reply.response).RetryLater? && classify(a.reply.response).retryAfter > 0
    then classify(a.reply.response).retryAfter
    else Backoff(c, k + 1)
  }

  /** Attempt `k` is sent. */
  predicate Sent<B, R>(req: Request<B>, k: nat, a: Attempt<B, R>) {
    !a.cancelledBefore && Prepare(req, k, a).Ready?
  }

  /** Attempt `k` is sent, retryable and not the last one allowed, so Do sleeps after it. */
  predicate Sleeps<B, R>(c: Config, classify: R -> Verdict, req: Request<B>, k: nat, a: Attempt<B, R>) {
    Sent(req, k, a) && Retryable(classify, a) && k < c.Retries()
  }

  /** Attempt `k` is followed by another one. */
  predicate Continues<B, R>(c: Config, classify: R -> Verdict, req: Request<B>, k: nat, a: Attempt<B, R>) {
    Sleeps(c, classify, req, k, a) && !a.cancelledInSleep
  }

  /** The last attempt is the first that is not continued. */
  predicate IsLast<B, R>(c: Config, classify: R -> Verdict, req: Request<B>, env: nat -> Attempt<B, R>, k: nat) {
    !Continues(c, classify, req, k, env(k)) && forall j: nat | j < k :: Continues(c, classify, req, j, env(j))
  }

  /** What Do returns when attempt `k` is the last. */
  function ResultOf<B, R>(c: Config, classify: R -> Verdict, req: Request<B>, k: nat, a: Attempt<B, R>): Result<R> {
    if a.cancelledBefore then ErrorCancelled
    else
      match Prepare(req, k, a)
      case MissingBody => ErrorBodyMissing
      case CopyFailed => ErrorBodyCopy
      case Ready(_) =>
        if Sleeps(c, classify, req, k, a) then ErrorCancelled
        else
          match a.reply
          case NoResponse(error, _) => ErrorNetwork(error)
          case Response(r) => if classify(r).Accepted? then Ok(r) else ErrorResponse(r)
  }

  /** What attempt `k` does on the wire and on the clock. */
  function ActionsOf<B, R>(c: Config, classify: R -> Verdict, req: Request<B>, k: nat, a: Attempt<B, R>)
    : seq<Action<B>>
  {
    if !Sent(req, k, a) then []
    else [Send(Prepare(req, k, a).body)]
         + if Sleeps(c, classify, req, k, a) then [Sleep(Wait(c, classify, k, a))] else []
  }

  function ActionsUpTo<B, R>(c: Config, classify: R -> Verdict, req: Request<B>, env: nat -> Attempt<B, R>, n: nat)
    : seq<Action<B>>
  {
    if n == 0 then []
    else ActionsUpTo(c, classify, req, env, n - 1) + ActionsOf(c, classify, req, n - 1, env(n - 1))
  }

  /** Do stops at the first attempt that is not continued, returns that attempt's result, and has sent and slept
      exactly what the attempts up to it call for. */
  method Do<B, R>(c: Config, classify: R -> Verdict, req: Request<B>, env: nat -> Attempt<B, R>)
    returns (result: Result<R>, trace: seq<Action<B>>, last: nat)
    ensures last <= c.Retries()
    ensures IsLast(c, classify, req, env, last)
    ensures result == ResultOf(c, classify, req, last, env(last))
    ensures trace == ActionsUpTo(c, classify, req, env, last + 1)
  {
    hide Shifted, Times;
    trace := [];
    var retries: nat := 0;
    while true
      invariant retries <= c.Retries()
      invariant forall j: nat | j < retries :: Continues(c, classify, req, j, env(j))
      invariant trace == ActionsUpTo(c, classify, req, env, retries)
      decreases c.Retries() - retries
    {
      var a := env(retries);
      last := retries;
      if a.cancelledBefore {
        return ErrorCancelled, trace, last;
      }
      var prepared := Prepare(req, retries, a);
      if prepared.MissingBody? {
        return ErrorBodyMissing, trace, last;
      }
      if prepared.CopyFailed? {
        return ErrorBodyCopy, trace, last;
      }
      trace := trace + [Send(prepared.body)];
      var wait: int;
      match a.reply {
        case NoResponse(error, done) =>
          if !(IsRetryableNetworkError(error, done) && retries < c.Retries()) {
            return ErrorNetwork(error), trace, last;
          }
          wait := Backoff(c, retries + 1);
        case Response(r) =>
          var verdict := classify(r);
          if verdict.Accepted? {
            return Ok(r), trace, last;
          }
          if !(verdict.RetryLater? && retries < c.Retries()) {
            return ErrorResponse(r), trace, last;
          }
          wait := verdict.retryAfter;
          if wait <= 0 {
            wait := Backoff(c, retries + 1);
          }
      }
      retries := retries + 1;
      trace := trace + [Sleep(wait)];
      if a.cancelledInSleep {
        return ErrorCancelled, trace, last;
      }
    }
  }

  // ----- what that means over whole calls

  /** There is exactly one last attempt, and it is at most the retry limit. */
  lemma LastExists<B, R>(c: Config, classify: R -> Verdict, req: Request<B>, env: nat -> Attempt<B, R>, from: nat)
    returns (k: nat)
    requires from <= c.Retries()
    requires forall j: nat | j < from :: Continues(c, classify, req, j, env(j))
    ensures IsLast(c, classify, req, env, k) && k <= c.Retries()
    decreases c.Retries() - from
  {
    if Continues(c, classify, req, from, env(from)) {
      k := LastExists(c, classify, req, env, from + 1);
    } else {
      k := from;
    }
  }

  lemma LastUnique<B, R>(c: Config, classify: R -> Verdict, req: Request<B>, env: nat -> Attempt<B, R>, k: nat, l: nat)
    requires IsLast(c, classify, req, env, k) && IsLast(c, classify, req, env, l)
    ensures k == l
  {
    hide Continues;
  }

  lemma ContinuedActions<B, R>(c: Config, classify: R -> Verdict, req: Request<B>, k: nat, a: Attempt<B, R>)
    requires Continues(c, classify, req, k, a)
    ensures Prepare(req, k, a).Ready?
    ensures ActionsOf(c, classify, req, k, a) == [Send(Prepare(req, k, a).body), Sleep(Wait(c, classify, k, a))]
  {
  }

  /** Before the last attempt the trace strictly alternates: one send, one sleep. */
  lemma {:induction false} TraceAlternates<B, R>(c: Config, classify: R -> Verdict, req: Request<B>,
                                                 env: nat -> Attempt<B, R>, n: nat)
    requires forall j: nat | j < n :: Continues(c, classify, req, j, env(j))
    ensures var trace := ActionsUpTo(c, classify, req, env, n);
            && |trace| == 2 * n
            && forall j: nat | j < n ::
                 && Prepare(req, j, env(j)).Ready?
                 && trace[2 * j] == Send(Prepare(req, j, env(j)).body)
                 && trace[2 * j + 1] == Sleep(Wait(c, classify, j, env(j)))
  {
    hide Wait, Prepare, Continues, ActionsOf;
    if n > 0 {
      TraceAlternates(c, classify, req, env, n - 1);
      var before, trace := ActionsUpTo(c, classify, req, env, n - 1), ActionsUpTo(c, classify, req, env, n);
      ContinuedActions(c, classify, req, n - 1, env(n - 1));
      forall j: nat | j < n
        ensures Prepare(req, j, env(j)).Ready?
        ensures trace[2 * j] == Send(Prepare(req, j, env(j)).body)
        ensures trace[2 * j + 1] == Sleep(Wait(c, classify, j, env(j)))
      {
        if j < n - 1 {
          assert trace[2 * j] == before[2 * j] && trace[2 * j + 1] == before[2 * j + 1];
        }
      }
    }
  }

  function SendCount<B>(trace: seq<Action<B>>): nat {
    if trace == [] then 0 else SendCount(trace[..|trace| - 1]) + if trace[|trace| - 1].Send? then 1 else 0
  }

  lemma {:induction false} SendCountAppend<B>(a: seq<Action<B>>, b: seq<Action<B>>)
    ensures SendCount(a + b) == SendCount(a) + SendCount(b)
  {
    if b == [] {
      assert a + b == a;
    } else {
      var n := |b| - 1;
      assert (a + b)[..|a + b| - 1] == a + b[..n];
      SendCountAppend(a, b[..n]);
    }
  }

  /** A call sends at most max(0, MaxRetries) + 1 requests, one per attempt. */
  lemma {:induction false} SendsBounded<B, R>(c: Config, classify: R -> Verdict, req: Request<B>,
                                              env: nat -> Attempt<B, R>, n: nat)
    requires n <= c.Retries() + 1
    ensures SendCount(ActionsUpTo(c, classify, req, env, n)) <= n
  {
    hide Wait, Prepare, Retryable;
    if n > 0 {
      SendsBounded(c, classify, req, env, n - 1);
      var step := ActionsOf(c, classify, req, n - 1, env(n - 1));
      SendCountAppend(ActionsUpTo(c, classify, req, env, n - 1), step);
      OneSendPerAttempt(c, classify, req, n - 1, env(n - 1));
    }
  }

  lemma OneSendPerAttempt<B, R>(c: Config, classify: R -> Verdict, req: Request<B>, k: nat, a: Attempt<B, R>)
    ensures SendCount(ActionsOf(c, classify, req, k, a)) == if Sent(req, k, a) then 1 else 0
  {
    var step := ActionsOf(c, classify, req, k, a);
    if Sent(req, k, a) {
      var send := [Send(Prepare(req, k, a).body)];
      assert send[..0] == [];
      assert SendCount(send) == 1;
      if |step| == 2 {
        assert step[..1] == send;
      }
    }
  }

  /** The result is the first outcome that is not retryable, or the outcome of attempt max(0, MaxRetries) + 1,
      or a cancellation, or a body that cannot be sent again. */
  lemma ResultIsFirstFinal<B, R>(c: Config, classify: R -> Verdict, req: Request<B>, env: nat -> Attempt<B, R>, k: nat)
    requires IsLast(c, classify, req, env, k)
    ensures forall j: nat | j < k :: Retryable(classify, env(j)) && Sent(req, j, env(j))
    ensures var result := ResultOf(c, classify, req, k, env(k));
            match result
            case Ok(r) => env(k).reply == Response(r) && classify(r).Accepted?
            case ErrorResponse(r) =>
              env(k).reply == Response(r) && (classify(r).Rejected? || (classify(r).RetryLater? && k == c.Retries()))
            case ErrorNetwork(e) =>
              && env(k).reply.NoResponse? && env(k).reply.error == e
              && (!IsRetryableNetworkError(e, env(k).reply.contextDone) || k == c.Retries())
            case ErrorCancelled => env(k).cancelledBefore || (env(k).cancelledInSleep && k < c.Retries())
            case ErrorBodyMissing => !req.hasGetBody && req.body.Some? && k == 1
            case ErrorBodyCopy => req.hasGetBody && env(k).bodyCopy.None?
    ensures var a, result := env(k), ResultOf(c, classify, req, k, env(k));
            && (result.ErrorBodyCopy? <==> !a.cancelledBefore && req.hasGetBody && a.bodyCopy.None?)
            && (result.ErrorBodyMissing? <==> !a.cancelledBefore && !req.hasGetBody && req.body.Some? && k > 0)
            && (result.ErrorCancelled? <== a.cancelledBefore)
  {
    hide Backoff;
    forall j: nat | j < k
      ensures Retryable(classify, env(j)) && Sent(req, j, env(j)) && j < c.Retries()
    {
      assert Continues(c, classify, req, j, env(j));
    }
    if k > 1 {
      assert Sent(req, 1, env(1));
    }
    assert k <= c.Retries() by {
      if k > 0 {
        assert Continues(c, classify, req, k - 1, env(k - 1));
      }
    }
  }

  /** Every send carries the request's body; a body that cannot be copied is sent once and then reported missing. */
  lemma EverySendCarriesTheBody<B, R>(c: Config, classify: R -> Verdict, req: Request<B>,
                                      env: nat -> Attempt<B, R>, k: nat)
    requires IsLast(c, classify, req, env, k)
    requires req.hasGetBody ==> forall j: nat :: env(j).bodyCopy.Some? ==> env(j).bodyCopy == req.body
    ensures forall action | action in ActionsUpTo(c, classify, req, env, k + 1) ::
              action.Send? ==> action.body == req.body
    ensures req.hasGetBody ==> forall j: nat | j < k :: env(j).bodyCopy.Some?
    ensures !req.hasGetBody && req.body.Some? && k > 0 ==>
              k == 1 && ResultOf(c, classify, req, k, env(k)) in {ErrorBodyMissing, ErrorCancelled}
  {
    BodiesUpTo(c, classify, req, env, k, k + 1);
    if k > 0 {
      assert Continues(c, classify, req, k - 1, env(k - 1));
      assert Sent(req, k - 1, env(k - 1));
    }
  }

  lemma {:induction false} BodiesUpTo<B, R>(c: Config, classify: R -> Verdict, req: Request<B>,
                                            env: nat -> Attempt<B, R>, k: nat, n: nat)
    requires req.hasGetBody ==> forall j: nat :: env(j).bodyCopy.Some? ==> env(j).bodyCopy == req.body
    ensures forall action | action in ActionsUpTo(c, classify, req, env, n) :: action.Send? ==> action.body == req.body
  {
    hide Wait, Retryable;
    if n > 0 {
      BodiesUpTo(c, classify, req, env, k, n - 1);
      assert forall action | action in ActionsOf(c, classify, req, n - 1, env(n - 1)) ::
          action.Send? ==> action.body == Prepare(req, n - 1, env(n - 1)).body;
    }
  }

  /** The exponential backoff is min(base * 2^(retry-1), cap) exactly when the product fits in 63 bits or its low 64
      bits happen to lie between the cap and 2^63. */
  lemma BackoffAsIntendedIff(c: Config, retry: nat)
    requires retry > 0 && c.Base() < LIMIT && c.Cap() < LIMIT
    ensures var exact := c.Base() * Pow2(retry - 1);
            CappedBackoff(c, retry) == (if exact > c.Cap() then c.Cap() else exact)
            <==> exact < LIMIT || c.Cap() <= exact % MODULUS < LIMIT
  {
    var exact := c.Base() * Pow2(retry - 1);
    assert exact > 0 by {
      Pow2Monotone(0, retry - 1);
      Positive(c.Base(), Pow2(retry - 1));
    }
    CappedBackoffWraps(c, retry);
    WrapByResidue(exact);
    WrappedIsIntendedIff(exact, c.Cap());
    hide Pow2, CappedBackoff;
  }

  lemma CappedBackoffWraps(c: Config, retry: nat)
    requires retry > 0 && c.Base() < LIMIT
    ensures var wrapped := Wrap(c.Base() * Pow2(retry - 1));
            CappedBackoff(c, retry) == if wrapped > c.Cap() then c.Cap() else wrapped
  {
    WrapFactor(c.Base(), Pow2(retry - 1));
    if retry == 1 {
      WrapInRange(c.Base());
      assert c.Base() * Pow2(0) == c.Base();
    }
    hide Pow2, Wrap;
  }

  lemma WrappedIsIntendedIff(exact: int, cap: int)
    requires exact > 0 && 0 < cap < LIMIT
    ensures var wrapped := if exact % MODULUS < LIMIT then exact % MODULUS else exact % MODULUS - MODULUS;
            (if wrapped > cap then cap else wrapped) == (if exact > cap then cap else exact)
            <==> exact < LIMIT || cap <= exact % MODULUS < LIMIT
  {
    if exact < MODULUS {
      assert exact % MODULUS == exact;
    }
  }

  const CONFIGURED_BASE: int := 500_000_000

  /** As the clients configure it, and as it is without a configuration, the backoff simply doubles up to the cap:
      0.5s, 1s, 2s, 4s, 8s, 10s, and 10s from then on while the product fits. */
  lemma ConfiguredBackoffDoubles(c: Config, retry: nat)
    requires c.baseBackoff == 500_000_000 || c.baseBackoff <= 0
    requires c.maxBackoff == 10_000_000_000 || c.maxBackoff <= 0
    requires 1 <= retry <= 35
    ensures CappedBackoff(c, retry) ==
              if retry <= 5 then 500_000_000 * Pow2(retry - 1) else 10_000_000_000
  {
    FirstOverflowAt36(c, retry);
    assert Pow2(1) == 2 && Pow2(2) == 4 && Pow2(3) == 8 && Pow2(4) == 16 && Pow2(5) == 32;
    if retry > 5 {
      Pow2Monotone(5, retry - 1);
    }
    hide CappedBackoff, Pow2;
  }

  /** With that base the first retry whose product overflows is the 36th, and its delay is negative. */
  lemma FirstOverflowAt36(c: Config, retry: nat)
    requires c.Base() == CONFIGURED_BASE && c.Cap() < LIMIT && 1 <= retry <= 36
    ensures var exact := CONFIGURED_BASE * Pow2(retry - 1);
            if retry < 36 then CappedBackoff(c, retry) == (if exact > c.Cap() then c.Cap() else exact)
            else CappedBackoff(c, retry) < 0
  {
    Pow2At32();
    assert Pow2(34) == 0x4_0000_0000 && Pow2(35) == 0x8_0000_0000;
    if retry < 36 {
      Pow2Monotone(retry - 1, 34);
      BackoffAsIntendedIff(c, retry);
    } else {
      WrapFactor(CONFIGURED_BASE, Pow2(35));
      WrapShift(CONFIGURED_BASE * Pow2(35) - MODULUS, 1);
    }
  }

  lemma Positive(a: int, b: int)
    requires a > 0 && b > 0
    ensures a * b > 0
  {
  }
}
