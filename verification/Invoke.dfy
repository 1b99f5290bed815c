/**
 The retry loop. Everything the loop meets is adversarial: the outcome and length of every call, the sleeper's
 answers, the random source. Each is a function of the attempt number, so one value of `Run` is one history,
 and a statement about every `Run` is a statement about every history.
 */
module Invocations {
  import opened Prelude
  import opened Errors
  import opened Backoffs
  import opened Contexts
  import opened Retryers

  // ---------------------------------------------------------------- call settings

  /** The `Retry` field: nil, a function that returns nil, or one that makes a new retryer. */
  datatype RetrySetting = NoRetry | NilRetryer | Makes(policy: Policy)

  datatype CallSettings = CallSettings(
    retry: RetrySetting, grpc: seq<string>, path: string, timeout: int, clientMetrics: Option<nat>)

  const ZERO_SETTINGS := CallSettings(NoRetry, [], "", 0, None)

  datatype CallOption =
    | RetryOption(retry: RetrySetting)
    | GrpcOption(grpc: seq<string>)
    | PathOption(path: string)
    | TimeoutOption(timeout: int)
    | ClientMetricsOption(cm: Option<nat>)

  function Resolve(o: CallOption, s: CallSettings): CallSettings {
    match o
    case RetryOption(retry) => s.(retry := retry)
    case GrpcOption(grpc) => s.(grpc := grpc)
    case PathOption(path) => s.(path := path)
    case TimeoutOption(timeout) => s.(timeout := timeout)
    case ClientMetricsOption(cm) => s.(clientMetrics := cm)
  }

  function Folded(opts: seq<CallOption>): CallSettings {
    if opts == [] then ZERO_SETTINGS else Resolve(opts[|opts| - 1], Folded(opts[..|opts| - 1]))
  }

  /** Each field is what the last option of its kind says. */
  lemma {:induction false} LastOptionWins(opts: seq<CallOption>, i: nat)
    requires i < |opts|
    ensures opts[i].RetryOption? && (forall j :: i < j < |opts| ==> !opts[j].RetryOption?) ==>
              Folded(opts).retry == opts[i].retry
    ensures opts[i].TimeoutOption? && (forall j :: i < j < |opts| ==> !opts[j].TimeoutOption?) ==>
              Folded(opts).timeout == opts[i].timeout
    ensures opts[i].PathOption? && (forall j :: i < j < |opts| ==> !opts[j].PathOption?) ==>
              Folded(opts).path == opts[i].path
    ensures opts[i].GrpcOption? && (forall j :: i < j < |opts| ==> !opts[j].GrpcOption?) ==>
              Folded(opts).grpc == opts[i].grpc
    ensures opts[i].ClientMetricsOption? && (forall j :: i < j < |opts| ==> !opts[j].ClientMetricsOption?) ==>
              Folded(opts).clientMetrics == opts[i].cm
  {
    var n := |opts| - 1;
    if i < n {
      LastOptionWins(opts[..n], i);
    }
  }

  /** A field without an option keeps its zero value. */
  lemma {:induction false} NoOptionLeavesZero(opts: seq<CallOption>)
    ensures (forall j :: 0 <= j < |opts| ==> !opts[j].RetryOption?) ==> Folded(opts).retry == NoRetry
    ensures (forall j :: 0 <= j < |opts| ==> !opts[j].TimeoutOption?) ==> Folded(opts).timeout == 0
    ensures (forall j :: 0 <= j < |opts| ==> !opts[j].PathOption?) ==> Folded(opts).path == ""
    ensures (forall j :: 0 <= j < |opts| ==> !opts[j].GrpcOption?) ==> Folded(opts).grpc == []
    ensures (forall j :: 0 <= j < |opts| ==> !opts[j].ClientMetricsOption?) ==> Folded(opts).clientMetrics == None
  {
    if opts != [] {
      NoOptionLeavesZero(opts[..|opts| - 1]);
    }
  }

  // ---------------------------------------------------------------- the environment

  /** What a call returns and how long it takes. */
  datatype CallResult = CallResult(err: Option<Error>, elapsed: nat)

  /** What a sleeper returns and when. */
  datatype Wake = Wake(err: Option<Error>, at: int)

  /** Attempt number, context, settings, time of the call. */
  type ApiCall = (nat, Ctx, CallSettings, int) -> CallResult

  /** Attempt number, context, time of the call, pause. */
  type Sleeper = (nat, Ctx, int, int) -> Wake

  datatype Run = Run(
    ctx: Ctx, settings: CallSettings, call: ApiCall, sleeper: Sleeper, raw: nat -> nat, start: int,
    tracing: bool, metrics: bool)
  {
    predicate Usable() {
      settings.retry.Makes? ==> settings.retry.policy.Usable()
    }
  }

  datatype Event =
    | Called(ctx: Ctx, err: Option<Error>)
    | FactoryCalled
    | Asked(about: Error, answer: Option<int>)
    | Slept(ctx: Ctx, d: int, err: Option<Error>)
    | Recorded(elapsed: int, err: Option<Error>)

  // ---------------------------------------------------------------- one attempt, without the loop's variables

  /** The one context, and so the one deadline, of all attempts. */
  function EffectiveCtx(run: Run): Ctx {
    if run.ctx.deadline.None? && run.settings.timeout != 0
    then WithTimeout(run.ctx, run.start, run.settings.timeout)
    else run.ctx
  }

  function AttemptCtx(run: Run, k: nat): Ctx {
    if run.tracing then Announce(EffectiveCtx(run), k) else EffectiveCtx(run)
  }

  function CertificateText(): string {
    "x509: certificate signed " + "by unknown authority"
  }

  predicate IsCertificateError(e: Error) {
    Contains(Text(e), CertificateText())
  }

  /** Attempt `k`, started at time `now`: its call. */
  function CallFrom(run: Run, k: nat, now: int): CallResult {
    run.call(k, AttemptCtx(run, k), run.settings, now)
  }

  /** The pause it ends in; `None` when it ends the run before any sleep. */
  function PauseFrom(run: Run, k: nat, now: int): Option<int>
    requires run.Usable()
  {
    match CallFrom(run, k, now).err
    case None => None
    case Some(e) =>
      if IsCertificateError(e) || !run.settings.retry.Makes? then None
      else Answer(run.settings.retry.policy, k, Rewrite(e), run.raw(k))
  }

  /** Its sleep, if it pauses. */
  function WakeFrom(run: Run, k: nat, now: int): Wake
    requires run.Usable()
  {
    match PauseFrom(run, k, now)
    case None => Wake(None, now)
    case Some(d) => run.sleeper(k, EffectiveCtx(run), now + CallFrom(run, k, now).elapsed, d)
  }

  /** When attempt `k` starts, if it does. */
  function Now(run: Run, k: nat): int
    requires run.Usable()
  {
    if k == 0 then run.start else WakeFrom(run, k - 1, Now(run, k - 1)).at
  }

  function CallAt(run: Run, k: nat): CallResult
    requires run.Usable()
  {
    CallFrom(run, k, Now(run, k))
  }

  function ReturnedAt(run: Run, k: nat): int
    requires run.Usable()
  {
    Now(run, k) + CallAt(run, k).elapsed
  }

  function PauseAt(run: Run, k: nat): Option<int>
    requires run.Usable()
  {
    PauseFrom(run, k, Now(run, k))
  }

  function WakeAt(run: Run, k: nat): Wake
    requires run.Usable()
  {
    WakeFrom(run, k, Now(run, k))
  }

  /** Attempt `k` ends the run. */
  predicate StopsAt(run: Run, k: nat)
    requires run.Usable()
  {
    PauseAt(run, k).None? || WakeAt(run, k).err.Some?
  }

  function ResultAt(run: Run, k: nat): Option<Error>
    requires run.Usable()
  {
    if PauseAt(run, k).Some? then WakeAt(run, k).err
    else match CallAt(run, k).err
      case None => None
      case Some(e) => if IsCertificateError(e) then Some(e) else Some(Rewrite(e))
  }

  /** The events of attempt `k`. The retryer is made in attempt 0 or never. */
  function AttemptTrace(run: Run, k: nat): seq<Event>
    requires run.Usable()
  {
    var err := CallAt(run, k).err;
    var called := [Called(AttemptCtx(run, k), err)];
    if err.None? || IsCertificateError(err.value) || run.settings.retry.NoRetry? then called
    else
      var made := if k == 0 then called + [FactoryCalled] else called;
      if run.settings.retry.NilRetryer? then made
      else
        var asked := made + [Asked(Rewrite(err.value), PauseAt(run, k))];
        if PauseAt(run, k).None? then asked
        else asked + [Slept(EffectiveCtx(run), PauseAt(run, k).value, WakeAt(run, k).err)]
  }

  function TraceBefore(run: Run, k: nat): seq<Event>
    requires run.Usable()
  {
    if k == 0 then [] else TraceBefore(run, k - 1) + AttemptTrace(run, k - 1)
  }

  function EndAt(run: Run, k: nat): int
    requires run.Usable()
  {
    if PauseAt(run, k).Some? then WakeAt(run, k).at else ReturnedAt(run, k)
  }

  /** The whole history of a run whose last attempt is `n`. */
  function FullTrace(run: Run, n: nat): seq<Event>
    requires run.Usable()
  {
    TraceBefore(run, n + 1) +
    if run.metrics then [Recorded(EndAt(run, n) - run.start, ResultAt(run, n))] else []
  }

  // ---------------------------------------------------------------- the loop

  /** The loop ends exactly in these runs: some attempt ends it. */
  ghost predicate Halts(run: Run)
    requires run.Usable()
  {
    exists k :: StopsAt(run, k)
  }

  ghost predicate IsLast(run: Run, n: nat)
    requires run.Usable()
  {
    StopsAt(run, n) && forall j :: 0 <= j < n ==> !StopsAt(run, j)
  }

  lemma {:induction false} LeastStop(run: Run, k: nat) returns (n: nat)
    requires run.Usable() && StopsAt(run, k)
    ensures n <= k && IsLast(run, n)
    decreases k
  {
    if j :| 0 <= j < k && StopsAt(run, j) {
      n := LeastStop(run, j);
    } else {
      n := k;
    }
  }

  /** The retryer that the loop holds before attempt `k`: none before the first failure, then one for the whole run. */
  ghost predicate HoldsRetryer(run: Run, k: nat, retryer: Retryer?)
    reads retryer, if retryer != null then {retryer.backoff} else {}
  {
    && (retryer == null <==> k == 0)
    && (retryer != null ==>
          retryer.Valid() && run.settings.retry == Makes(retryer.policy) && retryer.granted == k)
  }

  /** One turn of the loop; `done` when it leaves the loop. */
  method Attempt(run: Run, ctx: Ctx, k: nat, now: int, retryer: Retryer?)
    returns (done: bool, err: Option<Error>, next: int, kept: Retryer?, events: seq<Event>)
    requires run.Usable() && ctx == EffectiveCtx(run) && now == Now(run, k) && HoldsRetryer(run, k, retryer)
    modifies retryer, if retryer != null then {retryer.backoff} else {}
    ensures done <==> StopsAt(run, k)
    ensures events == AttemptTrace(run, k)
    ensures done ==> err == ResultAt(run, k) && next == EndAt(run, k)
    ensures !done ==> next == Now(run, k + 1) && HoldsRetryer(run, k + 1, kept)
    ensures !done && k > 0 ==> kept == retryer
    ensures !done && k == 0 ==> fresh(kept) && (kept.backoff != null ==> fresh(kept.backoff))
  {
    hide IsCertificateError, Parsed, Answer, Announce, WithTimeout;
    kept := retryer;
    var ctxToUse := ctx;
    if run.tracing {
      ctxToUse := WithRetryCount(ctx, k);
    }
    var result := run.call(k, ctxToUse, run.settings, now);
    next, err := now + result.elapsed, result.err;
    events := [Called(ctxToUse, err)];
    if err == None {
      return true, err, next, kept, events;
    }
    if IsCertificateError(err.value) {
      return true, err, next, kept, events;
    }
    var apierr := ParseError(err, true);
    if apierr.Some? {
      err := Some(Api(apierr.value));
    }
    if run.settings.retry.NoRetry? {
      return true, err, next, kept, events;
    }
    if kept == null {
      events := events + [FactoryCalled];
      if run.settings.retry.NilRetryer? {
        return true, err, next, kept, events;
      }
      kept := new Retryer(run.settings.retry.policy);
    }
    var d := kept.Retry(err.value, run.raw(k));
    events := events + [Asked(err.value, d)];
    if d.None? {
      return true, err, next, kept, events;
    }
    var wake := run.sleeper(k, ctx, next, d.value);
    next, err := wake.at, wake.err;
    events := events + [Slept(ctx, d.value, err)];
    done := err != None;
  }

  /**
   One run of the loop. A method has to end, so the runs that never do are excluded; `DeadlineHalts` says when
   there are none of those. `attempts` counts the calls.
   */
  method InvokeLoop(run: Run) returns (err: Option<Error>, trace: seq<Event>, attempts: nat)
    requires run.Usable() && Halts(run)
    ensures attempts > 0 && IsLast(run, attempts - 1)
    ensures err == ResultAt(run, attempts - 1)
    ensures trace == FullTrace(run, attempts - 1)
  {
    hide StopsAt, ResultAt, AttemptTrace, EndAt, WakeFrom, Retryer.Valid;
    ghost var some :| StopsAt(run, some);
    ghost var last := LeastStop(run, some);
    var retryer: Retryer? := null;
    var ctx, now := run.ctx, run.start;
    if ctx.deadline.None? && run.settings.timeout != 0 {
      ctx := WithTimeout(ctx, now, run.settings.timeout);
    }
    var retryCount: nat, done := 0, false;
    err, trace := None, [];
    while !done
      invariant retryCount <= last && ctx == EffectiveCtx(run)
      invariant forall j :: 0 <= j < retryCount ==> !StopsAt(run, j)
      invariant !done ==> now == Now(run, retryCount) && trace == TraceBefore(run, retryCount)
      invariant !done ==> HoldsRetryer(run, retryCount, retryer)
      invariant !done && retryer != null ==> fresh(retryer) && (retryer.backoff != null ==> fresh(retryer.backoff))
      invariant done ==> StopsAt(run, retryCount) && trace == TraceBefore(run, retryCount + 1)
      invariant done ==> err == ResultAt(run, retryCount) && now == EndAt(run, retryCount)
      decreases last - retryCount, !done
    {
      var events;
      done, err, now, retryer, events := Attempt(run, ctx, retryCount, now, retryer);
      trace := trace + events;
      if !done {
        retryCount := retryCount + 1;
      }
    }
    attempts := retryCount + 1;
    if run.metrics {
      trace := trace + [Recorded(now - run.start, err)];
    }
  }
}
