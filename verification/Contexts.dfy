/** Contexts as far as calls and sleeps see them: deadline, cancellation and telemetry values. Times are nanoseconds. */
module Contexts {
  import opened Prelude
  import opened Errors

  /** `cancelAt` is the time of an explicit cancellation; `telemetry` lists the bindings, newest last. */
  datatype Ctx = Ctx(deadline: Option<int>, cancelAt: Option<int>, telemetry: seq<(string, string)>)

  const CANCELED := Plain("context canceled")
  const DEADLINE := Plain("context deadline exceeded")

  /** When the `Done` channel closes. */
  function DoneAt(ctx: Ctx): Option<int> {
    match (ctx.deadline, ctx.cancelAt)
    case (None, c) => c
    case (d, None) => d
    case (Some(d), Some(c)) => Some(Min(d, c))
  }

  /** `ctx.Err` once the context is done. */
  function CtxErr(ctx: Ctx): Error {
    if ctx.deadline.Some? && DoneAt(ctx) == ctx.deadline then DEADLINE else CANCELED
  }

  /** `context.WithTimeout`. */
  function WithTimeout(ctx: Ctx, now: int, timeout: int): Ctx {
    if ctx.deadline.Some? && ctx.deadline.value <= now + timeout then ctx
    else ctx.(deadline := Some(now + timeout))
  }

  /** The bindings that an alternating list of keys and values adds. */
  function Bindings(keyvals: seq<string>): seq<(string, string)>
    requires Even(keyvals)
  {
    var n := |keyvals|;
    if n == 0 then [] else Bindings(keyvals[..n - 2]) + [(keyvals[n - 2], keyvals[n - 1])]
  }

  method WithTelemetryContext(ctx: Ctx, keyvals: seq<string>) returns (r: Ctx)
    requires Even(keyvals)
    ensures r == ctx.(telemetry := ctx.telemetry + Bindings(keyvals))
  {
    r := ctx;
    var i := 0;
    while i < |keyvals|
      invariant 0 <= i <= |keyvals| && i % 2 == 0
      invariant r == ctx.(telemetry := ctx.telemetry + Bindings(keyvals[..i]))
    {
      assert keyvals[..i + 2][..i] == keyvals[..i];
      r := r.(telemetry := r.telemetry + [(keyvals[i], keyvals[i + 1])]);
      i := i + 2;
    }
    assert keyvals[..i] == keyvals;
  }

  function Lookup(bindings: seq<(string, string)>, key: string): Option<string> {
    if bindings == [] then None
    else
      var newest := bindings[|bindings| - 1];
      if newest.0 == key then Some(newest.1) else Lookup(bindings[..|bindings| - 1], key)
  }

  function TelemetryFromContext(ctx: Ctx, key: string): Option<string> {
    Lookup(ctx.telemetry, key)
  }

  /** The last value given for a key shadows the earlier ones and the parent's; other keys keep the parent's value. */
  lemma {:induction false} TelemetryLastWins(ctx: Ctx, keyvals: seq<string>, key: string)
    requires Even(keyvals)
    ensures var vs := ValuesFor(keyvals, key);
            TelemetryFromContext(ctx.(telemetry := ctx.telemetry + Bindings(keyvals)), key) ==
            if vs == [] then TelemetryFromContext(ctx, key) else Some(vs[|vs| - 1])
  {
    var n := |keyvals|;
    if n == 0 {
      assert ctx.telemetry + Bindings(keyvals) == ctx.telemetry;
    } else {
      TelemetryLastWins(ctx, keyvals[..n - 2], key);
      var all := ctx.telemetry + Bindings(keyvals);
      assert all[..|all| - 1] == ctx.telemetry + Bindings(keyvals[..n - 2]);
    }
  }

  /** The child context that announces how many times the request has been sent again. */
  method WithRetryCount(ctx: Ctx, retryCount: nat) returns (r: Ctx)
    ensures r == Announce(ctx, retryCount)
  {
    r := WithTelemetryContext(ctx, ["resend_count", Itoa(retryCount)]);
    assert ["resend_count", Itoa(retryCount)][..0] == [];
  }

  function Announce(ctx: Ctx, retryCount: nat): Ctx {
    ctx.(telemetry := ctx.telemetry + [("resend_count", Itoa(retryCount))])
  }
}
