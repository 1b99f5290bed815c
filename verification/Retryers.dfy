/** The retryers that ship with the library, and the answers they give. */
module Retryers {
  import opened Prelude
  import opened Errors
  import opened Backoffs

  /** What `settings.Retry` makes. A custom retryer's answer may depend on how often it has said yes before. */
  datatype Policy =
    | OnCodes(codes: seq<Code>, bo: Settings)
    | OnHttpCodes(bo: Settings, httpCodes: seq<int>)
    | OnErrorFunc(bo: Settings, shouldRetry: Error -> bool)
    | Custom(answer: (nat, Error) -> Option<int>)
  {
    predicate Usable() {
      Custom? || bo.Usable()
    }
  }

  /** Whether a backoff-based retryer retries `err`. */
  predicate Accepts(p: Policy, err: Error)
    requires !p.Custom?
  {
    match p
    case OnCodes(codes, _) => GrpcDecision(err, codes)
    case OnHttpCodes(_, codes) => HttpDecision(err, codes)
    case OnErrorFunc(_, shouldRetry) => shouldRetry(err)
  }

  /** The answer of a retryer that has said yes `k` times before: a pause, or `None` for "do not retry". */
  function Answer(p: Policy, k: nat, err: Error, raw: nat): Option<int>
    requires p.Usable()
  {
    if p.Custom? then p.answer(k, err)
    else if Accepts(p, err) then Some(PauseLength(p.bo, k, raw))
    else None
  }

  class Retryer {
    const policy: Policy
    const backoff: Backoff?
    var httpCodes: map<int, bool>
    var granted: nat

    ghost predicate Valid()
      reads this, backoff
    {
      && (backoff == null <==> policy.Custom?)
      && policy.Usable()
      && (backoff != null ==> backoff.Valid() && backoff.given == policy.bo && backoff.pauses == granted)
      && (policy.OnHttpCodes? ==> forall c :: (c in httpCodes && httpCodes[c]) <==> c in policy.httpCodes)
    }

    /** Each retryer has its own copy of the backoff. */
    constructor (p: Policy)
      requires p.Usable()
      ensures Valid() && policy == p && granted == 0
      ensures backoff != null ==> fresh(backoff)
    {
      var codes: map<int, bool> := map[];
      if p.OnHttpCodes? {
        for i := 0 to |p.httpCodes|
          invariant forall c :: (c in codes && codes[c]) <==> c in p.httpCodes[..i]
        {
          assert p.httpCodes[..i + 1] == p.httpCodes[..i] + [p.httpCodes[i]];
          codes := codes[p.httpCodes[i] := true];
        }
        assert p.httpCodes[..|p.httpCodes|] == p.httpCodes;
      }
      if p.Custom? {
        backoff := null;
      } else {
        backoff := new Backoff(p.bo);
      }
      policy, httpCodes, granted := p, codes, 0;
    }

    method Retry(err: Error, raw: nat) returns (r: Option<int>)
      requires Valid()
      modifies this, backoff
      ensures Valid()
      ensures r == Answer(policy, old(granted), err, raw)
      ensures granted == if r.Some? then old(granted) + 1 else old(granted)
    {
      match policy {
        case OnCodes(_, _) => r := RetryCode(err, raw);
        case OnHttpCodes(_, _) => r := RetryHttp(err, raw);
        case OnErrorFunc(_, _) => r := RetryFunc(err, raw);
        case Custom(answer) =>
          r := answer(granted, err);
          if r.Some? {
            granted := granted + 1;
          }
      }
    }

    method RetryCode(err: Error, raw: nat) returns (r: Option<int>)
      requires Valid() && policy.OnCodes?
      modifies this, backoff
      ensures Valid()
      ensures r == Answer(policy, old(granted), err, raw)
      ensures granted == if r.Some? then old(granted) + 1 else old(granted)
    {
      var st := StatusFromError(err);
      if st.None? {
        return None;
      }
      var c := st.value.code;
      for i := 0 to |policy.codes|
        invariant c !in policy.codes[..i]
        invariant Valid() && granted == old(granted)
      {
        if c == policy.codes[i] {
          r := PauseAndCount(raw);
          return;
        }
      }
      r := None;
    }

    method RetryHttp(err: Error, raw: nat) returns (r: Option<int>)
      requires Valid() && policy.OnHttpCodes?
      modifies this, backoff
      ensures Valid()
      ensures r == Answer(policy, old(granted), err, raw)
      ensures granted == if r.Some? then old(granted) + 1 else old(granted)
    {
      var gerr := FindHttp(err);
      if gerr.None? {
        return None;
      }
      if gerr.value.code in httpCodes && httpCodes[gerr.value.code] {
        r := PauseAndCount(raw);
        return;
      }
      r := None;
    }

    method RetryFunc(err: Error, raw: nat) returns (r: Option<int>)
      requires Valid() && policy.OnErrorFunc?
      modifies this, backoff
      ensures Valid()
      ensures r == Answer(policy, old(granted), err, raw)
      ensures granted == if r.Some? then old(granted) + 1 else old(granted)
    {
      if policy.shouldRetry(err) {
        r := PauseAndCount(raw);
        return;
      }
      r := None;
    }

    method PauseAndCount(raw: nat) returns (r: Option<int>)
      requires Valid() && !policy.Custom?
      modifies this, backoff
      ensures Valid() && granted == old(granted) + 1
      ensures r == Some(PauseLength(policy.bo, old(granted), raw))
    {
      var d := backoff.Pause(raw);
      granted := granted + 1;
      r := Some(d);
    }
  }
}
