/** What holds of whole runs of the retry loop: termination, waiting time, the shape of the history, decisions. */
module InvokeTheorems {
  import opened Prelude
  import opened Errors
  import opened Details
  import opened Backoffs
  import opened Contexts
  import opened Retryers
  import opened Invocations

  // ---------------------------------------------------------------- Sleep

  /** What the scheduler does with one `select`: who wins a tie, and how late the sleeper wakes. */
  datatype Luck = Luck(timerWins: bool, late: nat)

  /**
   The two-way `select` of `Sleep`: whichever of the timer and the context's `Done` channel is ready first wins,
   and either may win a tie. A timer for a pause that is not positive is ready at once.
   */
  function SleepOutcome(ctx: Ctx, now: int, d: int, luck: Luck): Wake {
    var fire := now + Max(d, 0);
    if DoneAt(ctx).None? then Wake(None, fire + luck.late)
    else
      var done := Max(DoneAt(ctx).value, now);
      if fire < done || (fire == done && luck.timerWins) then Wake(None, fire + luck.late)
      else Wake(Some(CtxErr(ctx)), done + luck.late)
  }

  function Sleep(luck: nat -> Luck): Sleeper {
    (k: nat, ctx: Ctx, now: int, d: int) => SleepOutcome(ctx, now, d, luck(k))
  }

  /** The timer goes off at time `t` before the limit, or wins the tie. */
  predicate Beats(t: int, limit: Option<int>, timerWins: bool) {
    limit.None? || t < limit.value || (t == limit.value && timerWins)
  }

  /** A timer that goes off at time `t` does so before the deadline and before the cancellation. */
  predicate InTime(ctx: Ctx, t: int, timerWins: bool) {
    Beats(t, ctx.deadline, timerWins) && Beats(t, ctx.cancelAt, timerWins)
  }

  /**
   A positive sleep succeeds exactly when its timer goes off before the end of the context, and then it takes its
   time; otherwise it ends with the context, or at once if that has ended, and says what ended the context.
   */
  lemma SleepFits(ctx: Ctx, now: int, d: int, luck: Luck)
    ensures var wake := SleepOutcome(ctx, now, d, luck);
            && (d > 0 ==> (wake.err.None? <==> InTime(ctx, now + d, luck.timerWins)))
            && (d <= 0 ==> (wake.err.None? <==> luck.timerWins || InTime(ctx, now, false)))
            && (wake.err.None? ==> wake.at == (if d > 0 then now + d else now) + luck.late)
            && (wake.err.Some? ==> DoneAt(ctx).Some? && wake.at == Max(DoneAt(ctx).value, now) + luck.late)
            && (wake.err.Some? ==>
                  wake.err.value ==
                  if ctx.deadline.Some? && Beats(ctx.deadline.value, ctx.cancelAt, true) then DEADLINE else CANCELED)
  {
  }

  /** A context is done at the earlier of its deadline and its cancellation. */
  lemma DoneIsEarliest(ctx: Ctx, t: int)
    ensures DoneAt(ctx) == Some(t) <==>
            (ctx.deadline == Some(t) || ctx.cancelAt == Some(t)) && InTime(ctx, t, true)
  {
  }

  // ---------------------------------------------------------------- Invoke

  /** `Invoke`: the options are applied in order, and the loop runs with the real `Sleep`. */
  method Invoke(ctx: Ctx, call: ApiCall, opts: seq<CallOption>, raw: nat -> nat, luck: nat -> Luck, start: int,
                tracing: bool, metrics: bool)
    returns (err: Option<Error>, trace: seq<Event>, attempts: nat)
    requires var run := Run(ctx, Folded(opts), call, Sleep(luck), raw, start, tracing, metrics);
             run.Usable() && Halts(run)
    ensures var run := Run(ctx, Folded(opts), call, Sleep(luck), raw, start, tracing, metrics);
            && attempts > 0 && IsLast(run, attempts - 1)
            && err == ResultAt(run, attempts - 1) && trace == FullTrace(run, attempts - 1)
  {
    hide Halts, IsLast, ResultAt, FullTrace, Run.Usable;
    var settings := ZERO_SETTINGS;
    for i := 0 to |opts|
      invariant settings == Folded(opts[..i])
    {
      assert opts[..i + 1][..i] == opts[..i];
      settings := Resolve(opts[i], settings);
    }
    assert opts[..|opts|] == opts;
    err, trace, attempts := InvokeLoop(Run(ctx, settings, call, Sleep(luck), raw, start, tracing, metrics));
  }

  // ---------------------------------------------------------------- termination

  /** A run with a backoff-based retryer and the real `Sleep`. */
  ghost predicate Timed(run: Run, luck: nat -> Luck) {
    && run.settings.retry.Makes? && !run.settings.retry.policy.Custom? && run.Usable()
    && run.sleeper == Sleep(luck)
  }

  /** The time that the first `n` calls take. */
  function CallTime(run: Run, n: nat): nat
    requires run.Usable()
  {
    if n == 0 then 0 else CallTime(run, n - 1) + CallAt(run, n - 1).elapsed
  }

  /** By how much the first `n` sleeps wake late. */
  function Lateness(luck: nat -> Luck, n: nat): nat {
    if n == 0 then 0 else Lateness(luck, n - 1) + luck(n - 1).late
  }

  /**
   An attempt that goes on takes its call, then its pause of at least one nanosecond, counted from the return of the
   call and over before the end of the context, and then the next attempt starts.
   */
  lemma TimePasses(run: Run, luck: nat -> Luck, k: nat)
    requires Timed(run, luck) && !StopsAt(run, k)
    ensures var d := PauseAt(run, k).value;
            var returned := Now(run, k) + run.call(k, AttemptCtx(run, k), run.settings, Now(run, k)).elapsed;
            && d == PauseLength(run.settings.retry.policy.bo, k, run.raw(k)) >= 1
            && Now(run, k + 1) == returned + d + luck(k).late
            && InTime(EffectiveCtx(run), returned + d, luck(k).timerWins)
  {
    SleepFits(EffectiveCtx(run), ReturnedAt(run, k), PauseAt(run, k).value, luck(k));
  }

  lemma {:induction false} TimeAdds(run: Run, luck: nat -> Luck, n: nat)
    requires Timed(run, luck) && forall j :: 0 <= j < n ==> !StopsAt(run, j)
    ensures var busy := run.start + CallTime(run, n) + TotalPause(run.settings.retry.policy.bo, run.raw, n);
            && Now(run, n) == busy + Lateness(luck, n)
            && (n > 0 && DoneAt(EffectiveCtx(run)).Some? ==> busy <= DoneAt(EffectiveCtx(run)).value)
  {
    if n > 0 {
      TimeAdds(run, luck, n - 1);
      TimePasses(run, luck, n - 1);
      hide EffectiveCtx, PauseAt, CallFrom, PauseLength, StopsAt, AttemptCtx;
    }
  }

  /**
   The time that is recorded for a run: its calls, its completed pauses and the lateness of its sleeps add up to it;
   a last sleep that fails ends with the context.
   */
  lemma RecordedTime(run: Run, luck: nat -> Luck, n: nat)
    requires Timed(run, luck) && IsLast(run, n)
    ensures var bo := run.settings.retry.policy.bo;
            var busy := CallTime(run, n + 1) + TotalPause(bo, run.raw, n) + Lateness(luck, n);
            && ReturnedAt(run, n) == run.start + busy
            && (PauseAt(run, n).None? ==> EndAt(run, n) == run.start + busy)
            && (PauseAt(run, n).Some? ==>
                  && DoneAt(EffectiveCtx(run)).Some?
                  && EndAt(run, n) == Max(DoneAt(EffectiveCtx(run)).value, run.start + busy) + luck(n).late)
  {
    hide Text, EffectiveCtx, AttemptCtx, SleepOutcome, TotalPause, Lateness, PauseLength, InTime, WakeAt, PauseAt,
         DoneAt, CallAt, Now, Sleep;
    TimeAdds(run, luck, n);
    PauseIs(run, luck, n);
    if PauseAt(run, n).Some? {
      SleepFits(EffectiveCtx(run), ReturnedAt(run, n), PauseAt(run, n).value, luck(n));
    }
  }

  /**
   With a deadline (or a cancellation time) `end`, the loop terminates whatever the calls return: after at most
   `max(0, end - start) + 1` calls. All calls but the last and the completed pauses fit in between.
   */
  lemma DeadlineHalts(run: Run, luck: nat -> Luck) returns (n: nat)
    requires Timed(run, luck) && DoneAt(EffectiveCtx(run)).Some?
    ensures var window := Max(0, DoneAt(EffectiveCtx(run)).value - run.start);
            && IsLast(run, n) && n <= window
            && n <= TotalPause(run.settings.retry.policy.bo, run.raw, n)
            && CallTime(run, n) + TotalPause(run.settings.retry.policy.bo, run.raw, n) <= window
    ensures Halts(run)
  {
    hide EffectiveCtx, DoneAt, TotalPause;
    var window := Max(0, DoneAt(EffectiveCtx(run)).value - run.start);
    var bo := run.settings.retry.policy.bo;
    if forall j :: 0 <= j <= window ==> !StopsAt(run, j) {
      TimeAdds(run, luck, window + 1);
      TotalPauseBounds(bo, run.raw, window + 1);
      assert false;
    } else {
      var k :| 0 <= k <= window && StopsAt(run, k);
      n := LeastStop(run, k);
      hide StopsAt;
      TimeAdds(run, luck, n);
      TotalPauseBounds(bo, run.raw, n);
      NoPauseYet(run, bo);
    }
  }

  lemma NoPauseYet(run: Run, bo: Settings)
    requires run.Usable() && bo.Usable()
    ensures CallTime(run, 0) == 0 && TotalPause(bo, run.raw, 0) == 0
  {
  }

  /** The loop with a deadline, total: no assumption about what the calls return. */
  method InvokeBeforeDeadline(run: Run, ghost luck: nat -> Luck)
    returns (err: Option<Error>, trace: seq<Event>, attempts: nat)
    requires Timed(run, luck) && DoneAt(EffectiveCtx(run)).Some?
    ensures 1 <= attempts <= Max(0, DoneAt(EffectiveCtx(run)).value - run.start) + 1
    ensures IsLast(run, attempts - 1) && err == ResultAt(run, attempts - 1) && trace == FullTrace(run, attempts - 1)
    ensures attempts - 1 <= Waited(trace)
    ensures CallTime(run, attempts - 1) + Waited(trace) <= Max(0, DoneAt(EffectiveCtx(run)).value - run.start)
  {
    ghost var n := DeadlineHalts(run, luck);
    hide FullTrace, StopsAt, ResultAt, EffectiveCtx, TotalPause, Waited;
    err, trace, attempts := InvokeLoop(run);
    assert n == attempts - 1;
    WaitedInRun(run, n);
  }

  /** Attempt `k` goes on exactly when its call fails in a retried way and its pause is over in time. */
  lemma StopsIff(run: Run, luck: nat -> Luck, k: nat)
    requires Timed(run, luck)
    ensures var result := run.call(k, AttemptCtx(run, k), run.settings, Now(run, k));
            var d := PauseLength(run.settings.retry.policy.bo, k, run.raw(k));
            !StopsAt(run, k) <==>
            && result.err.Some? && LoopRetries(run.settings.retry.policy, result.err.value)
            && InTime(EffectiveCtx(run), Now(run, k) + result.elapsed + d, luck(k).timerWins)
  {
    hide Text, EffectiveCtx, AttemptCtx, LoopRetries, SleepOutcome, PauseLength, InTime, WakeAt, PauseAt, Now, DoneAt,
         Sleep, Folded;
    LoopAsks(run, k);
    PauseIs(run, luck, k);
    SleepFits(EffectiveCtx(run), ReturnedAt(run, k), PauseLength(run.settings.retry.policy.bo, k, run.raw(k)), luck(k));
  }

  lemma PauseIs(run: Run, luck: nat -> Luck, k: nat)
    requires Timed(run, luck)
    ensures PauseAt(run, k).Some? ==>
              && PauseAt(run, k).value == PauseLength(run.settings.retry.policy.bo, k, run.raw(k))
              && WakeAt(run, k) == SleepOutcome(EffectiveCtx(run), ReturnedAt(run, k), PauseAt(run, k).value, luck(k))
  {
    hide Text, IsCertificateError, Rewrite, Accepts, PauseLength, EffectiveCtx, AttemptCtx, SleepOutcome;
  }

  /** Pause `k` would be over in time. */
  predicate PauseFits(run: Run, luck: nat -> Luck, k: nat)
    requires run.Usable() && run.settings.retry.Makes? && !run.settings.retry.policy.Custom?
  {
    InTime(EffectiveCtx(run), ReturnedAt(run, k) + PauseLength(run.settings.retry.policy.bo, k, run.raw(k)),
           luck(k).timerWins)
  }

  /** Whatever a call may fail with is retried. */
  ghost predicate FailuresAreRetried(run: Run) {
    && run.settings.retry.Makes? && !run.settings.retry.policy.Custom?
    && forall k: nat, ctx: Ctx, now ::
         var e := run.call(k, ctx, run.settings, now).err;
         e.Some? ==> LoopRetries(run.settings.retry.policy, e.value)
  }

  /** No call of the run succeeds, whatever it is given. */
  ghost predicate AllCallsFail(run: Run) {
    forall k: nat, ctx: Ctx, now :: run.call(k, ctx, run.settings, now).err.Some?
  }

  /** When all calls fail in a retried way, the run goes on exactly until a pause does not fit any more. */
  lemma EndsAtFirstPauseThatDoesNotFit(run: Run, luck: nat -> Luck, n: nat)
    requires Timed(run, luck) && FailuresAreRetried(run) && AllCallsFail(run)
    ensures IsLast(run, n) <==> !PauseFits(run, luck, n) && forall k :: 0 <= k < n ==> PauseFits(run, luck, k)
    ensures IsLast(run, n) ==> ResultAt(run, n) == Some(CtxErr(EffectiveCtx(run)))
  {
    hide Text, EffectiveCtx, AttemptCtx, LoopRetries, InTime, StopsAt, PauseLength;
    forall k: nat
      ensures StopsAt(run, k) <==> !PauseFits(run, luck, k)
    {
      StopsIff(run, luck, k);
    }
    if IsLast(run, n) {
      FailedPause(run, luck, n);
    }
  }

  /** A retried failure stops the run only with the error of the context. */
  lemma FailedPause(run: Run, luck: nat -> Luck, n: nat)
    requires Timed(run, luck) && StopsAt(run, n) && CallAt(run, n).err.Some?
    requires LoopRetries(run.settings.retry.policy, CallAt(run, n).err.value)
    ensures ResultAt(run, n) == Some(CtxErr(EffectiveCtx(run)))
  {
    hide Text, EffectiveCtx, AttemptCtx, LoopRetries, SleepOutcome, PauseLength, InTime, WakeAt, PauseAt, Now, Sleep;
    LoopAsks(run, n);
    PauseIs(run, luck, n);
    SleepError(EffectiveCtx(run), ReturnedAt(run, n), PauseAt(run, n).value, luck(n));
  }

  lemma SleepError(ctx: Ctx, now: int, d: int, luck: Luck)
    requires SleepOutcome(ctx, now, d, luck).err.Some?
    ensures SleepOutcome(ctx, now, d, luck).err.value == CtxErr(ctx)
  {
  }

  /** Without an end of the context nothing bounds the loop: if every call fails in a retried way it never ends. */
  lemma WithoutDeadlineNeverHalts(run: Run, luck: nat -> Luck)
    requires Timed(run, luck) && DoneAt(EffectiveCtx(run)).None?
    requires FailuresAreRetried(run) && AllCallsFail(run)
    ensures !Halts(run)
  {
    hide Text, EffectiveCtx, AttemptCtx, LoopRetries, StopsAt, PauseLength, Now, Sleep;
    forall k: nat
      ensures !StopsAt(run, k)
    {
      StopsIff(run, luck, k);
      NoEndInTime(EffectiveCtx(run));
    }
  }

  lemma NoEndInTime(ctx: Ctx)
    requires DoneAt(ctx).None?
    ensures forall t, timerWins :: InTime(ctx, t, timerWins)
  {
  }

  /** Without an end of the context the run ends exactly with the first call that succeeds. */
  lemma EndsWithFirstSuccess(run: Run, luck: nat -> Luck, n: nat)
    requires Timed(run, luck) && Deadline(run).None? && run.ctx.cancelAt.None? && FailuresAreRetried(run)
    ensures IsLast(run, n) <==>
            && run.call(n, AttemptCtx(run, n), run.settings, Now(run, n)).err.None?
            && forall k :: 0 <= k < n ==> run.call(k, AttemptCtx(run, k), run.settings, Now(run, k)).err.Some?
    ensures IsLast(run, n) ==> ResultAt(run, n).None?
  {
    hide Text, EffectiveCtx, AttemptCtx, LoopRetries, PauseAt, WakeAt, PauseLength, Now, Sleep, InTime;
    forall k: nat
      ensures StopsAt(run, k) <==> run.call(k, AttemptCtx(run, k), run.settings, Now(run, k)).err.None?
    {
      StopsIff(run, luck, k);
      NoEndNoLimit(run, luck, k);
      hide StopsAt;
    }
    if IsLast(run, n) {
      LoopAsks(run, n);
    }
  }

  /**
   A server that waits for the resend count `m`: with tracing it is reached in attempt `m`, and the run succeeds;
   without, the calls see what the caller's context says, so they may fail for ever.
   */
  lemma ServerSeesResendCount(run: Run, luck: nat -> Luck, m: nat)
    requires Timed(run, luck) && Deadline(run).None? && run.ctx.cancelAt.None? && FailuresAreRetried(run)
    requires forall k: nat, ctx: Ctx, now ::
               run.call(k, ctx, run.settings, now).err.None? <==>
               TelemetryFromContext(ctx, "resend_count") == Some(Itoa(m))
    ensures run.tracing ==> IsLast(run, m) && ResultAt(run, m).None?
    ensures !run.tracing && TelemetryFromContext(run.ctx, "resend_count") != Some(Itoa(m)) ==> !Halts(run)
  {
    hide Text, LoopRetries, TelemetryFromContext, Itoa, AttemptCtx, StopsAt, EffectiveCtx, PauseLength, InTime;
    forall k: nat
      ensures TelemetryFromContext(AttemptCtx(run, k), "resend_count") == Some(Itoa(m)) <==>
              if run.tracing then k == m else TelemetryFromContext(run.ctx, "resend_count") == Some(Itoa(m))
    {
      SeenResendCount(run, k, m);
    }
    if run.tracing {
      EndsWithFirstSuccess(run, luck, m);
    } else if TelemetryFromContext(run.ctx, "resend_count") != Some(Itoa(m)) {
      if k :| StopsAt(run, k) {
        StopsIff(run, luck, k);
        NoEndNoLimit(run, luck, k);
        assert false;
      }
    }
  }

  lemma NoEndNoLimit(run: Run, luck: nat -> Luck, k: nat)
    requires Deadline(run).None? && run.ctx.cancelAt.None?
    ensures forall t :: InTime(EffectiveCtx(run), t, luck(k).timerWins)
  {
    ContextsShareDeadline(run, k);
  }

  lemma SeenResendCount(run: Run, k: nat, m: nat)
    ensures TelemetryFromContext(AttemptCtx(run, k), "resend_count") == Some(Itoa(m)) <==>
            if run.tracing then k == m else TelemetryFromContext(run.ctx, "resend_count") == Some(Itoa(m))
  {
    ResendCounts(run, k);
    ItoaRoundTrip(m);
    hide Itoa, DecimalValue, Lookup;
  }

  /** The one deadline of a run: `WithTimeout` counts only when the caller's context has none. */
  function Deadline(run: Run): Option<int> {
    if run.ctx.deadline.Some? then run.ctx.deadline
    else if run.settings.timeout == 0 then None
    else Some(run.start + run.settings.timeout)
  }

  // ---------------------------------------------------------------- the shape of a history

  /** The calls and sleeps of a history, in order. */
  function Steps(trace: seq<Event>): seq<Event> {
    if trace == [] then []
    else
      var last := trace[|trace| - 1];
      Steps(trace[..|trace| - 1]) + (if last.Called? || last.Slept? then [last] else [])
  }

  function FactoryCalls(trace: seq<Event>): nat {
    if trace == [] then 0
    else FactoryCalls(trace[..|trace| - 1]) + (if trace[|trace| - 1].FactoryCalled? then 1 else 0)
  }

  /** The time slept in completed pauses. */
  function Waited(trace: seq<Event>): int {
    if trace == [] then 0
    else
      var last := trace[|trace| - 1];
      Waited(trace[..|trace| - 1]) + (if last.Slept? && last.err.None? then last.d else 0)
  }

  function Records(trace: seq<Event>): seq<Event> {
    if trace == [] then []
    else
      var last := trace[|trace| - 1];
      Records(trace[..|trace| - 1]) + (if last.Recorded? then [last] else [])
  }

  lemma {:induction false} StepsAppend(a: seq<Event>, b: seq<Event>)
    ensures Steps(a + b) == Steps(a) + Steps(b)
    ensures Waited(a + b) == Waited(a) + Waited(b)
    ensures FactoryCalls(a + b) == FactoryCalls(a) + FactoryCalls(b)
  {
    if b == [] {
      assert a + b == a;
    } else {
      assert (a + b)[..|a + b| - 1] == a + b[..|b| - 1];
      StepsAppend(a, b[..|b| - 1]);
    }
  }

  lemma StepsOfOne(e: Event)
    ensures Steps([e]) == if e.Called? || e.Slept? then [e] else []
    ensures FactoryCalls([e]) == if e.FactoryCalled? then 1 else 0
    ensures Waited([e]) == if e.Slept? && e.err.None? then e.d else 0
  {
  }

  /** The steps of one attempt: the call, and the sleep if it pauses. The factory is called in attempt 0 or never. */
  lemma AttemptSteps(run: Run, k: nat)
    requires run.Usable()
    ensures Steps(AttemptTrace(run, k)) ==
            [Called(AttemptCtx(run, k), CallAt(run, k).err)] +
            if PauseAt(run, k).None? then []
            else [Slept(EffectiveCtx(run), PauseAt(run, k).value, WakeAt(run, k).err)]
    ensures FactoryCalls(AttemptTrace(run, k)) == if k == 0 && MakesRetryer(run) then 1 else 0
    ensures Waited(AttemptTrace(run, k)) == if StopsAt(run, k) then 0 else PauseAt(run, k).value
  {
    hide IsCertificateError, Rewrite, Answer, EffectiveCtx, AttemptCtx, CallFrom, WakeFrom, Steps, FactoryCalls, Now,
         Waited;
    var err := CallAt(run, k).err;
    var called := Called(AttemptCtx(run, k), err);
    StepsOfOne(called);
    if err.Some? && !IsCertificateError(err.value) && !run.settings.retry.NoRetry? {
      StepsAppend([called], [FactoryCalled]);
      StepsOfOne(FactoryCalled);
      var made := if k == 0 then [called] + [FactoryCalled] else [called];
      if run.settings.retry.Makes? {
        var ask := Asked(Rewrite(err.value), PauseAt(run, k));
        StepsAppend(made, [ask]);
        StepsOfOne(ask);
        if PauseAt(run, k).Some? {
          var slept := Slept(EffectiveCtx(run), PauseAt(run, k).value, WakeAt(run, k).err);
          StepsAppend(made + [ask], [slept]);
          StepsOfOne(slept);
        }
      }
    }
  }

  /** The first call fails with an error that is not a certificate error, and a factory is set. */
  predicate MakesRetryer(run: Run)
    requires run.Usable()
  {
    var err := CallAt(run, 0).err;
    err.Some? && !IsCertificateError(err.value) && !run.settings.retry.NoRetry?
  }

  /** Calls and successful sleeps alternate strictly, as long as no attempt stops. */
  lemma {:induction false} StepsAlternate(run: Run, n: nat)
    requires run.Usable() && forall j :: 0 <= j < n ==> !StopsAt(run, j)
    ensures |Steps(TraceBefore(run, n))| == 2 * n
    ensures forall j :: 0 <= j < n ==>
              && Steps(TraceBefore(run, n))[2 * j] == Called(AttemptCtx(run, j), CallAt(run, j).err)
              && CallAt(run, j).err.Some?
    ensures forall j :: 0 <= j < n ==>
              && PauseAt(run, j).Some?
              && Steps(TraceBefore(run, n))[2 * j + 1] == Slept(EffectiveCtx(run), PauseAt(run, j).value, None)
    ensures FactoryCalls(TraceBefore(run, n)) == if n > 0 then 1 else 0
  {
    hide IsCertificateError, Rewrite, Answer, EffectiveCtx, AttemptCtx, CallFrom, WakeFrom, AttemptTrace;
    if n > 0 {
      StepsAlternate(run, n - 1);
      StepsAppend(TraceBefore(run, n - 1), AttemptTrace(run, n - 1));
      AttemptSteps(run, n - 1);
      assert !StopsAt(run, n - 1);
      assert Steps(TraceBefore(run, n)) == Steps(TraceBefore(run, n - 1)) + Steps(AttemptTrace(run, n - 1));
    }
  }

  /**
   The whole history: n + 1 calls and n successful sleeps in strict alternation, then possibly one failed sleep; the
   factory is called at most once.
   */
  lemma HistoryShape(run: Run, n: nat)
    requires run.Usable() && IsLast(run, n)
    ensures var steps := Steps(FullTrace(run, n));
            && |steps| == 2 * n + 1 + (if PauseAt(run, n).Some? then 1 else 0)
            && steps[2 * n] == Called(AttemptCtx(run, n), CallAt(run, n).err)
            && (PauseAt(run, n).Some? ==>
                  steps[2 * n + 1] == Slept(EffectiveCtx(run), PauseAt(run, n).value, ResultAt(run, n)))
            && forall j :: 0 <= j < n ==>
                 && PauseAt(run, j).Some?
                 && steps[2 * j] == Called(AttemptCtx(run, j), CallAt(run, j).err)
                 && steps[2 * j + 1] == Slept(EffectiveCtx(run), PauseAt(run, j).value, None)
    ensures FactoryCalls(FullTrace(run, n)) == if MakesRetryer(run) then 1 else 0
  {
    hide IsCertificateError, Rewrite, Answer, EffectiveCtx, AttemptCtx, CallFrom, WakeFrom, AttemptTrace, Steps,
         FactoryCalls, MakesRetryer;
    StepsAlternate(run, n);
    AttemptSteps(run, n);
    StepsAppend(TraceBefore(run, n), AttemptTrace(run, n));
    var record := Recorded(EndAt(run, n) - run.start, ResultAt(run, n));
    StepsAppend(TraceBefore(run, n + 1), [record]);
    StepsOfOne(record);
    if n > 0 {
      FirstAttemptMakesRetryer(run);
    }
    assert TraceBefore(run, n + 1) + [] == TraceBefore(run, n + 1);
  }

  /** The event is no call or sleep, or has the one deadline of the run and the caller's cancellation. */
  predicate SharesDeadline(run: Run, e: Event) {
    e.Called? || e.Slept? ==> e.ctx.deadline == Deadline(run) && e.ctx.cancelAt == run.ctx.cancelAt
  }

  /** Every call and every sleep of a run, finished or not, sees the one deadline. */
  lemma OneDeadline(run: Run, n: nat)
    requires run.Usable()
    ensures forall e :: e in FullTrace(run, n) ==> SharesDeadline(run, e)
  {
    DeadlineBefore(run, n + 1);
    hide TraceBefore, ResultAt, EndAt, Deadline;
  }

  lemma {:induction false} DeadlineBefore(run: Run, n: nat)
    requires run.Usable()
    ensures forall e :: e in TraceBefore(run, n) ==> SharesDeadline(run, e)
  {
    hide Text, IsCertificateError, Answer, CallFrom, WakeFrom, PauseFrom, Now, EffectiveCtx, AttemptCtx, Rewrite,
         Deadline;
    if n > 0 {
      DeadlineBefore(run, n - 1);
      ContextsShareDeadline(run, n - 1);
    }
  }

  lemma ContextsShareDeadline(run: Run, k: nat)
    ensures AttemptCtx(run, k).deadline == EffectiveCtx(run).deadline == Deadline(run)
    ensures AttemptCtx(run, k).cancelAt == EffectiveCtx(run).cancelAt == run.ctx.cancelAt
    ensures EffectiveCtx(run).telemetry == run.ctx.telemetry
  {
  }

  /**
   The pauses of a whole run are the first pauses of one backoff, so they are bounded by its envelope: at least a
   nanosecond and at most the cap each, and for an integral multiplier no more than the geometric sum.
   */
  lemma WaitingTime(run: Run, n: nat)
    requires run.Usable() && IsLast(run, n) && run.settings.retry.Makes? && !run.settings.retry.policy.Custom?
    ensures var bo, waited := run.settings.retry.policy.bo, Waited(FullTrace(run, n));
            && waited == TotalPause(bo, run.raw, n)
            && n <= waited
            && (bo.Start() <= bo.Max() ==> waited <= n * bo.Max())
            && forall m: nat :: bo.Multiplier() == m as real ==> (m - 1) * waited <= bo.Start() * (Pow(m, n) - 1)
  {
    hide FullTrace, Waited, TotalPause, Pow, Fits, IsLast;
    var bo := run.settings.retry.policy.bo;
    WaitedInRun(run, n);
    TotalPauseBounds(bo, run.raw, n);
    forall m: nat | bo.Multiplier() == m as real
      ensures (m - 1) * Waited(FullTrace(run, n)) <= bo.Start() * (Pow(m, n) - 1)
    {
      TotalPauseGeometric(bo, run.raw, m, n);
    }
  }

  lemma WaitedInRun(run: Run, n: nat)
    requires run.Usable() && IsLast(run, n) && run.settings.retry.Makes? && !run.settings.retry.policy.Custom?
    ensures Waited(FullTrace(run, n)) == TotalPause(run.settings.retry.policy.bo, run.raw, n)
  {
    hide AttemptTrace, Waited, StopsAt, TotalPause, Fits, ResultAt, EndAt, PauseAt, WakeAt, CallAt, MakesRetryer;
    WaitedBefore(run, n);
    AttemptSteps(run, n);
    StepsAppend(TraceBefore(run, n), AttemptTrace(run, n));
    var record := Recorded(EndAt(run, n) - run.start, ResultAt(run, n));
    StepsAppend(TraceBefore(run, n + 1), [record]);
    StepsOfOne(record);
    assert TraceBefore(run, n + 1) + [] == TraceBefore(run, n + 1);
  }

  lemma {:induction false} WaitedBefore(run: Run, n: nat)
    requires run.Usable() && run.settings.retry.Makes? && !run.settings.retry.policy.Custom?
    requires forall j :: 0 <= j < n ==> !StopsAt(run, j)
    ensures Waited(TraceBefore(run, n)) == TotalPause(run.settings.retry.policy.bo, run.raw, n)
  {
    hide AttemptTrace, IsCertificateError, Envelope;
    if n > 0 {
      WaitedBefore(run, n - 1);
      StepsAppend(TraceBefore(run, n - 1), AttemptTrace(run, n - 1));
      AttemptSteps(run, n - 1);
      assert !StopsAt(run, n - 1);
    }
  }

  lemma FirstAttemptMakesRetryer(run: Run)
    requires run.Usable() && !StopsAt(run, 0)
    ensures MakesRetryer(run)
  {
  }

  /** With tracing on, attempt `k` carries the resend count `k`, which reads back; otherwise nothing is added. */
  lemma {:induction false} ResendCounts(run: Run, k: nat)
    ensures run.tracing ==> TelemetryFromContext(AttemptCtx(run, k), "resend_count") == Some(Itoa(k))
    ensures DecimalValue(Itoa(k)) == k
    ensures !run.tracing ==> AttemptCtx(run, k) == EffectiveCtx(run)
    ensures forall key :: key != "resend_count" || !run.tracing ==>
              TelemetryFromContext(AttemptCtx(run, k), key) == TelemetryFromContext(run.ctx, key)
  {
    ItoaRoundTrip(k);
    hide Itoa, DecimalValue, EffectiveCtx;
    var bindings := Announce(EffectiveCtx(run), k).telemetry;
    assert bindings[|bindings| - 1] == ("resend_count", Itoa(k));
    assert bindings[..|bindings| - 1] == EffectiveCtx(run).telemetry == run.ctx.telemetry by {
      ContextsShareDeadline(run, k);
    }
  }

  /**
   What a run returns: nil exactly when its last call did; otherwise the certificate error as it was, the last
   call's error rewritten, or the sleeper's error. With metrics on exactly one record is made, of that result and
   as the last event; without them none is.
   */
  lemma ResultShape(run: Run, n: nat)
    requires run.Usable() && IsLast(run, n)
    ensures ResultAt(run, n).None? <==> CallAt(run, n).err.None?
    ensures ResultAt(run, n).Some? ==>
              var e := CallAt(run, n).err.value;
              var result := ResultAt(run, n).value;
              if IsCertificateError(e) then result == e
              else if PauseAt(run, n).Some? then WakeAt(run, n).err == Some(result)
              else if StatusFromError(e).Some? || FindHttp(e).Some? then
                result == Api(Parsed(e, true).value) && result.api.Unwrap() == Some(e)
              else result == e
    ensures Records(FullTrace(run, n)) ==
            if run.metrics then [Recorded(EndAt(run, n) - run.start, ResultAt(run, n))] else []
    ensures run.metrics ==> FullTrace(run, n)[|FullTrace(run, n)| - 1].Recorded?
  {
    RecordsOfRun(run, n);
    hide Records, FullTrace, Text, IsCertificateError, Answer, CallFrom, WakeFrom, Now;
  }

  lemma RecordsOfRun(run: Run, n: nat)
    requires run.Usable()
    ensures Records(FullTrace(run, n)) ==
            if run.metrics then [Recorded(EndAt(run, n) - run.start, ResultAt(run, n))] else []
    ensures run.metrics ==> FullTrace(run, n)[|FullTrace(run, n)| - 1].Recorded?
  {
    hide Text, IsCertificateError, Answer, CallFrom, WakeFrom, PauseFrom, Now, EffectiveCtx, AttemptCtx, Rewrite,
         AttemptTrace, Records, TraceBefore, ResultAt, EndAt;
    NoRecordBefore(run, n + 1);
    NoRecords(TraceBefore(run, n + 1));
    RecordsPush(TraceBefore(run, n + 1), Recorded(EndAt(run, n) - run.start, ResultAt(run, n)));
    assert TraceBefore(run, n + 1) + [] == TraceBefore(run, n + 1);
  }

  lemma RecordsPush(trace: seq<Event>, record: Event)
    requires record.Recorded?
    ensures Records(trace + [record]) == Records(trace) + [record]
  {
    assert (trace + [record])[..|trace|] == trace;
  }

  lemma {:induction false} NoRecords(trace: seq<Event>)
    requires forall e :: e in trace ==> !e.Recorded?
    ensures Records(trace) == []
  {
    if trace != [] {
      NoRecords(trace[..|trace| - 1]);
    }
  }

  lemma {:induction false} NoRecordBefore(run: Run, n: nat)
    requires run.Usable()
    ensures forall e :: e in TraceBefore(run, n) ==> !e.Recorded?
  {
    hide Text, IsCertificateError, Answer, CallFrom, WakeFrom, PauseFrom, Now, EffectiveCtx, AttemptCtx, Rewrite;
    if n > 0 {
      NoRecordBefore(run, n - 1);
    }
  }

  // ---------------------------------------------------------------- decisions

  /** The decision of the loop about an error that a call has returned, for a backoff-based retryer. */
  predicate LoopRetries(p: Policy, e: Error)
    requires !p.Custom?
  {
    !IsCertificateError(e) && Accepts(p, Rewrite(e))
  }

  /** The error as the retryer sees it. */
  lemma LoopAsks(run: Run, k: nat)
    requires run.Usable()
    ensures PauseAt(run, k).Some? ==> CallAt(run, k).err.Some? && run.settings.retry.Makes?
    ensures run.settings.retry.Makes? && !run.settings.retry.policy.Custom? ==>
              (PauseAt(run, k).Some? <==>
               CallAt(run, k).err.Some? && LoopRetries(run.settings.retry.policy, CallAt(run, k).err.value))
    ensures run.settings.retry.Makes? && run.settings.retry.policy.Custom? && CallAt(run, k).err.Some? ==>
              var e := CallAt(run, k).err.value;
              PauseAt(run, k) ==
              if IsCertificateError(e) then None else run.settings.retry.policy.answer(k, Rewrite(e))
  {
    hide Text, IsCertificateError, Rewrite, Accepts, PauseLength, AttemptCtx, EffectiveCtx;
  }

  /**
   The decisions, in terms of where in the chain of the returned error a status or an HTTP error stands: the gRPC
   code counts before the HTTP code, and an HTTP code counts for the gRPC codes that it stands for.
   */
  lemma LoopDecision(p: Policy, e: Error)
    ensures p.OnHttpCodes? ==>
              (LoopRetries(p, e) <==>
               !IsCertificateError(e) && exists httpCode :: httpCode in p.httpCodes && CarriesHttp(e, httpCode))
    ensures p.OnCodes? ==>
              (LoopRetries(p, e) <==>
               !IsCertificateError(e) && exists code :: code in p.codes && CountsAs(e, code))
    ensures p.OnErrorFunc? ==>
              (LoopRetries(p, e) <==>
               && !IsCertificateError(e)
               && p.shouldRetry(if Parsed(e, true).None? then e else Api(Parsed(e, true).value)))
  {
    hide Text, IsCertificateError, StatusFromError, FindHttp, CarriesHttp, CountsAs, Parsed;
    if p.OnHttpCodes? {
      RewriteKeepsHttp(e);
      forall httpCode {
        CarriesHttpIff(e, httpCode);
      }
    } else if p.OnCodes? {
      GrpcDecisionAfterRewrite(e, p.codes);
      forall code: Code {
        CountsAsIff(e, code);
      }
    }
  }

  /** The error has this gRPC code, or it has none but an HTTP code that stands for it. */
  ghost predicate CountsAs(e: Error, code: Code) {
    || CarriesStatus(e, code)
    || ((forall other: Code :: !CarriesStatus(e, other))
        && exists httpCode :: CarriesHttp(e, httpCode) && StandsFor(code, httpCode))
  }

  lemma CountsAsIff(e: Error, code: Code)
    ensures CountsAs(e, code) <==>
            if StatusFromError(e).Some? then StatusFromError(e).value.code == code
            else FindHttp(e).Some? && ToCode(FindHttp(e).value.code) == code
  {
    hide StatusFromError, FindHttp, CarriesHttp, CarriesStatus, ToCode, StandsFor;
    forall other: Code {
      CarriesStatusIff(e, other);
    }
    forall httpCode {
      CarriesHttpIff(e, httpCode);
    }
    if StatusFromError(e).Some? {
      assert CarriesStatus(e, StatusFromError(e).value.code);
    }
    if FindHttp(e).Some? {
      assert CarriesHttp(e, FindHttp(e).value.code);
      ToCodeIff(FindHttp(e).value.code, code);
    }
  }

  /** An HTTP error below any number of wrappers, and a gRPC status below them. */
  lemma DecisionAtDepth(p: Policy, e: Error, texts: seq<string>)
    requires p.OnCodes? || p.OnHttpCodes?
    requires !IsCertificateError(Wrap(e, texts))
    ensures e.Http? && p.OnHttpCodes? ==> (LoopRetries(p, Wrap(e, texts)) <==> e.http.code in p.httpCodes)
    ensures e.Http? && e.cause.None? && p.OnCodes? ==>
              (LoopRetries(p, Wrap(e, texts)) <==> exists code :: code in p.codes && StandsFor(code, e.http.code))
    ensures e.Grpc? && e.status.Some? && p.OnCodes? ==>
              (LoopRetries(p, Wrap(e, texts)) <==> e.status.value.code in p.codes)
    ensures e.Grpc? && p.OnHttpCodes? ==> !LoopRetries(p, Wrap(e, texts))
  {
    var whole := Wrap(e, texts);
    FoundInWrappers(e, texts);
    WrapKeepsAs(e, texts, HasGrpcStatus);
    assert e.Grpc? ==> FindHttp(e).None?;
    hide Text, IsCertificateError, StatusFromError, FindHttp, Rewrite, Wrap, ToCode, StandsFor;
    if p.OnHttpCodes? {
      RewriteKeepsHttp(whole);
    } else {
      GrpcDecisionAfterRewrite(whole, p.codes);
      if e.Http? {
        forall code: Code {
          ToCodeIff(e.http.code, code);
        }
      }
    }
  }

  /**
   Nested retry loops. An outer loop is handed the error wrapped `n` times. The retryers decide alike at every level,
   but the guard for certificate errors reads the text of the wrapped error, and that text prints the details: the
   outer loop retries what a single one would, except where the wrapping of `e` prints the certificate text. So the
   two decide alike unless a single loop retries `e` and the printed parts of `e` quote that text.
   */
  lemma NestedLoopDecision(p: Policy, e: Error, n: nat)
    requires p.OnCodes? || p.OnHttpCodes?
    requires n >= 1 && !IsCertificateError(e)
    ensures Parsed(e, true).Some? ==> (IsCertificateError(RewriteN(e, n)) <==> Quotes(e, CertificateText()))
    ensures LoopRetries(p, RewriteN(e, n)) == LoopRetries(p, e) <==>
            !LoopRetries(p, e) || Parsed(e, true).None? || !Quotes(e, CertificateText())
    ensures LoopRetries(p, RewriteN(e, n)) ==> LoopRetries(p, e)
  {
    CertificateTextIsSolid();
    if Parsed(e, true).Some? {
      RewriteNQuotes(e, n, CertificateText());
    }
    hide Text, StatusFromError, FindHttp, Parsed, Quotes, CertificateText, Contains;
    RewriteNStable(e, n);
    RewrittenAccepts(p, e, n);
  }

  /** The retryers themselves see no difference. */
  lemma RewrittenAccepts(p: Policy, e: Error, n: nat)
    requires p.OnCodes? || p.OnHttpCodes?
    requires n >= 1
    ensures Accepts(p, Rewrite(RewriteN(e, n))) == Accepts(p, Rewrite(e))
  {
    hide StatusFromError, FindHttp, Rewrite;
    assert RewriteN(e, n + 1) == Rewrite(RewriteN(e, n));
    RewriteKeepsHttp(e);
    match p {
      case OnCodes(codes, _) => RewriteNDecisions(e, n + 1, codes, []);
      case OnHttpCodes(_, codes) => RewriteNDecisions(e, n + 1, [], codes);
    }
  }

  lemma CertificateTextIsSolid()
    ensures Solid(CertificateText()) && CertificateText()[0] == 'x'
  {
    var front, back := "x509: certificate signed ", "by unknown authority";
    assert front[0] == 'x' && back[|back| - 1] == 'y';
    assert '\n' !in front && '\n' !in back;
    assert CertificateText() == front + back;
  }

  /** A gRPC error with debug details that quote the certificate text, while its own text does not. */
  function QuotingDebug(): Message {
    Message(DebugInfoType, CertificateText(), DebugInfoLine(CertificateText(), []))
  }

  function QuotingText(): string {
    "rpc error: code = " + "Unavailable desc = a"
  }

  function QuotingError(): Error {
    Grpc(QuotingText(), Some(Status(UNAVAILABLE, "a", [Good(QuotingDebug())])))
  }

  /** The exception occurs: one loop retries this error, and no loop around that one does. */
  lemma NestedGuardDiffers(bo: Settings, n: nat)
    requires n >= 1
    ensures LoopRetries(OnCodes([UNAVAILABLE], bo), QuotingError())
    ensures !LoopRetries(OnCodes([UNAVAILABLE], bo), RewriteN(QuotingError(), n))
  {
    QuotingErrorParts();
    hide Text, CertificateText, StatusFromError, QuotingError, DetailsText, Parsed, Contains;
    GrpcDecisionAfterRewrite(QuotingError(), [UNAVAILABLE]);
    NestedLoopDecision(OnCodes([UNAVAILABLE], bo), QuotingError(), n);
  }

  lemma QuotingErrorParts()
    ensures StatusFromError(QuotingError()).Some? && StatusFromError(QuotingError()).value.code == UNAVAILABLE
    ensures !IsCertificateError(QuotingError())
    ensures Parsed(QuotingError(), true).Some? && Quotes(QuotingError(), CertificateText())
  {
    QuotingErrorIsNoCertificateError();
    hide CertificateText, DetailsText, Contains, DebugInfoLine, Text, QuotingText;
    var st := Status(UNAVAILABLE, "a", [Good(QuotingDebug())]);
    assert StatusFromError(QuotingError()) == Some(st);
    assert Unpack(st.details) == [Proto(QuotingDebug())] by {
      assert st.details[1..] == [];
    }
    DebugDetailsText(QuotingDebug());
    DebugInfoLineContains(CertificateText());
  }

  lemma QuotingErrorIsNoCertificateError()
    ensures !IsCertificateError(QuotingError())
  {
    CertificateTextIsSolid();
    QuotingTextHasNoX();
    hide CertificateText, QuotingDebug, QuotingText, Contains;
    ContainsNeedsFirst(QuotingText(), CertificateText());
  }

  lemma QuotingTextHasNoX()
    ensures 'x' !in QuotingText()
  {
    var front, back := "rpc error: code = ", "Unavailable desc = a";
    assert 'x' !in front && 'x' !in back;
    assert QuotingText() == front + back;
  }

  lemma DebugInfoLineContains(detail: string)
    ensures Contains(DebugInfoLine(detail, []), detail)
  {
    var before, after := "error details: name = DebugInfo detail = ", " stack = " + "" + "\n";
    assert DebugInfoLine(detail, []) == before + detail + after;
    ContainsIntro(DebugInfoLine(detail, []), detail, before, after);
  }

  lemma DebugDetailsText(debug: Message)
    requires debug.kind == DebugInfoType
    ensures DetailsText(DetailsOf([Proto(debug)])) == debug.line
  {
    DetailsOfOne(Proto(debug));
    hide LastOf, Unknowns;
    var lines := Lines(DetailsOf([Proto(debug)]));
    assert lines == ["", "", "", "", "", "", "", "", debug.line, "", ""];
    ConcatOfOne(lines, 8);
  }
}
