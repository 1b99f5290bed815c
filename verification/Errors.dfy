/**
 The error values that pass through a call, the walk of `errors.As` over wrapper chains, and `apierror.APIError`.
 `status.FromError` and `errors.As` belong to other packages; they are taken here by their published contracts.
 */
module Errors {
  import opened Prelude
  import opened Details

  type Code = nat

  const OK: Code := 0
  const UNKNOWN: Code := 2
  const INVALID_ARGUMENT: Code := 3
  const DEADLINE_EXCEEDED: Code := 4
  const NOT_FOUND: Code := 5
  const PERMISSION_DENIED: Code := 7
  const RESOURCE_EXHAUSTED: Code := 8
  const FAILED_PRECONDITION: Code := 9
  const ABORTED: Code := 10
  const OUT_OF_RANGE: Code := 11
  const UNIMPLEMENTED: Code := 12
  const INTERNAL: Code := 13
  const UNAVAILABLE: Code := 14
  const UNAUTHENTICATED: Code := 16

  /** `canonicalMap`. */
  function CanonicalCode(httpCode: int): Option<Code> {
    match httpCode
    case 200 => Some(OK)
    case 400 => Some(INVALID_ARGUMENT)
    case 403 => Some(PERMISSION_DENIED)
    case 404 => Some(NOT_FOUND)
    case 409 => Some(ABORTED)
    case 416 => Some(OUT_OF_RANGE)
    case 429 => Some(RESOURCE_EXHAUSTED)
    case 504 => Some(DEADLINE_EXCEEDED)
    case 501 => Some(UNIMPLEMENTED)
    case 503 => Some(UNAVAILABLE)
    case 401 => Some(UNAUTHENTICATED)
    case _ => None
  }

  function ToCode(httpCode: int): Code {
    if CanonicalCode(httpCode).Some? then CanonicalCode(httpCode).value
    else if 200 <= httpCode < 300 then OK
    else if 400 <= httpCode < 500 then FAILED_PRECONDITION
    else if 500 <= httpCode < 600 then INTERNAL
    else UNKNOWN
  }

  /** The HTTP codes behind each gRPC code, the codes by their numbers. */
  predicate StandsFor(code: Code, httpCode: int) {
    match code
    case 0 => 200 <= httpCode < 300
    case 3 => httpCode == 400
    case 16 => httpCode == 401
    case 7 => httpCode == 403
    case 5 => httpCode == 404
    case 10 => httpCode == 409
    case 11 => httpCode == 416
    case 8 => httpCode == 429
    case 12 => httpCode == 501
    case 14 => httpCode == 503
    case 4 => httpCode == 504
    case 9 => 400 <= httpCode < 500 && httpCode !in {400, 401, 403, 404, 409, 416, 429}
    case 13 => 500 <= httpCode < 600 && httpCode !in {501, 503, 504}
    case 2 => httpCode < 200 || 300 <= httpCode < 400 || 600 <= httpCode
    case _ => false
  }

  lemma ToCodeIff(httpCode: int, code: Code)
    ensures ToCode(httpCode) == code <==> StandsFor(code, httpCode)
  {
  }

  /** A gRPC status as it travels: its details are still packed. */
  datatype Status = Status(code: Code, message: string, details: seq<Packed>)

  /** A `googleapi.Error`; `body` is what its body decodes to, `None` when it does not follow the error schema. */
  datatype HttpError = HttpError(code: int, message: string, body: Option<seq<Packed>>)

  /** `text` is what the error's own `Error` method prints. */
  datatype Error =
    | Plain(text: string)
    | Grpc(text: string, status: Option<Status>)
    | Http(text: string, http: HttpError, cause: Option<Error>)
    | Wrapped(text: string, inner: Error)
    | Joined(text: string, parts: seq<Error>)
    | Api(api: ApiError)

  datatype ApiError = ApiError(
    err: Option<Error>, status: Option<Status>, httpErr: Option<HttpError>, details: ErrDetails)
  {
    function Unwrap(): Option<Error> { err }

    function GrpcStatus(): Option<Status> { status }

    function HttpCode(): int { if httpErr.None? then -1 else httpErr.value.code }
  }

  // ---------------------------------------------------------------- errors.As and status.FromError

  predicate IsHttp(e: Error) { e.Http? }

  predicate HasGrpcStatus(e: Error) { e.Grpc? || e.Api? }

  /** `errors.As`: the first match in a depth-first walk along `Unwrap`. */
  function As(e: Error, target: Error -> bool): Option<Error>
    decreases e, 1
  {
    if target(e) then Some(e)
    else match e
      case Wrapped(_, inner) => As(inner, target)
      case Joined(_, parts) => AsAny(parts, target)
      case Http(_, _, Some(cause)) => As(cause, target)
      case Api(ApiError(Some(err), _, _, _)) => As(err, target)
      case _ => None
  }

  function AsAny(es: seq<Error>, target: Error -> bool): Option<Error>
    decreases es, 0
  {
    if es == [] then None
    else
      var first := As(es[0], target);
      if first.Some? then first else AsAny(es[1..], target)
  }

  /** The `googleapi.Error` that `errors.As` finds. */
  function FindHttp(e: Error): Option<HttpError> {
    match As(e, IsHttp)
    case Some(Http(_, h, _)) => Some(h)
    case _ => None
  }

  function GrpcStatusOf(e: Error): Option<Status> {
    match e
    case Grpc(_, status) => status
    case Api(api) => api.GrpcStatus()
    case _ => None
  }

  /** `status.FromError` where it reports success; a status found below the top gets the whole error text as message. */
  function StatusFromError(e: Error): Option<Status> {
    match As(e, HasGrpcStatus)
    case None => None
    case Some(g) =>
      match GrpcStatusOf(g)
      case None => None
      case Some(st) => Some(if HasGrpcStatus(e) then st else st.(message := Text(e)))
  }

  /** The `Error` method. */
  function Text(e: Error): string {
    match e
    case Plain(text) => text
    case Grpc(text, _) => text
    case Http(text, _, _) => text
    case Wrapped(text, _) => text
    case Joined(text, _) => text
    case Api(ApiError(err, status, httpErr, details)) =>
      var msg :=
        if httpErr.Some? then "googleapi: Error " + Itoa(httpErr.value.code) + ": " + httpErr.value.message
        else if status.Some? && err.Some? then Text(err.value)
        else if status.Some? then status.value.message
        else "";
      TrimSpace(msg + "\n" + DetailsText(details))
  }

  // ---------------------------------------------------------------- which error of a chain is found

  /** What the `Unwrap` method of an error gives, in order. */
  function Below(e: Error): seq<Error> {
    match e
    case Wrapped(_, inner) => [inner]
    case Joined(_, parts) => parts
    case Http(_, _, cause) => if cause.Some? then [cause.value] else []
    case Api(api) => if api.err.Some? then [api.err.value] else []
    case _ => []
  }

  /** The error that unwrapping reaches when it takes the branches of `path`. */
  function At(e: Error, path: seq<nat>): Option<Error>
    decreases |path|
  {
    if path == [] then Some(e)
    else if path[0] < |Below(e)| then At(Below(e)[path[0]], path[1..])
    else None
  }

  /** Depth-first order: an error comes before what is below it, and a branch before the later ones. */
  predicate Before(p: seq<nat>, q: seq<nat>) {
    q != [] && (p == [] || p[0] < q[0] || (p[0] == q[0] && Before(p[1..], q[1..])))
  }

  lemma {:induction false} BeforeIsTotal(p: seq<nat>, q: seq<nat>)
    ensures p == q || Before(p, q) || Before(q, p)
  {
    if p != [] && q != [] && p[0] == q[0] {
      BeforeIsTotal(p[1..], q[1..]);
      assert p == [p[0]] + p[1..] && q == [q[0]] + q[1..];
    }
  }

  /** At `path` stands `t`, which meets the target, and nothing before it does. */
  ghost predicate FirstMet(e: Error, path: seq<nat>, target: Error -> bool, t: Error) {
    && At(e, path) == Some(t) && target(t)
    && forall q :: Before(q, path) && At(e, q).Some? ==> !target(At(e, q).value)
  }

  /** The walk reads off what `Below` says. */
  lemma AsByBelow(e: Error, target: Error -> bool)
    ensures As(e, target) == if target(e) then Some(e) else AsAny(Below(e), target)
  {
    match e {
      case Wrapped(_, inner) => AsAnyOfOne(inner, target);
      case Http(_, _, Some(cause)) => AsAnyOfOne(cause, target);
      case Api(ApiError(Some(err), _, _, _)) => AsAnyOfOne(err, target);
      case _ =>
    }
  }

  lemma AsAnyOfOne(e: Error, target: Error -> bool)
    ensures AsAny([e], target) == As(e, target)
  {
  }

  lemma {:induction false} AsAnyIsFirst(es: seq<Error>, target: Error -> bool) returns (i: nat)
    ensures AsAny(es, target).Some? ==> i < |es| && AsAny(es, target) == As(es[i], target)
    ensures AsAny(es, target).None? ==> i == |es|
    ensures forall j :: 0 <= j < i ==> As(es[j], target).None?
  {
    if es == [] {
      i := 0;
    } else if As(es[0], target).Some? {
      i := 0;
    } else {
      i := AsAnyIsFirst(es[1..], target);
      i := i + 1;
      assert forall j :: 0 < j < |es| ==> es[j] == es[1..][j - 1];
    }
  }

  /** Where the walk finds what it finds. */
  lemma {:induction false} AsFinds(e: Error, target: Error -> bool) returns (path: seq<nat>)
    ensures As(e, target).Some? ==> FirstMet(e, path, target, As(e, target).value)
    ensures As(e, target).None? ==> forall q :: At(e, q).Some? ==> !target(At(e, q).value)
    decreases e
  {
    AsByBelow(e, target);
    path := [];
    if !target(e) {
      hide As, AsAny;
      var i := AsAnyIsFirst(Below(e), target);
      forall q | q != [] && q[0] < i && At(e, q).Some?
        ensures !target(At(e, q).value)
      {
        var _ := AsFinds(Below(e)[q[0]], target);
        assert At(e, q) == At(Below(e)[q[0]], q[1..]);
      }
      if i < |Below(e)| {
        var t := As(e, target).value;
        var rest := AsFinds(Below(e)[i], target);
        path := [i] + rest;
        assert path[1..] == rest;
        forall q | Before(q, path) && At(e, q).Some?
          ensures !target(At(e, q).value)
        {
          if q != [] && q[0] == i {
            assert At(e, q) == At(Below(e)[i], q[1..]);
          }
        }
        assert FirstMet(e, path, target, t);
      }
    }
  }

  /** `errors.As` finds exactly the first error, in depth-first order of unwrapping, that meets the target. */
  lemma AsIsFirstMet(e: Error, target: Error -> bool, t: Error)
    ensures As(e, target) == Some(t) <==> exists path :: FirstMet(e, path, target, t)
  {
    var found := AsFinds(e, target);
    forall path | FirstMet(e, path, target, t)
      ensures As(e, target) == Some(t)
    {
      BeforeIsTotal(path, found);
    }
  }

  /** It finds nothing exactly when no error that unwrapping reaches meets the target. */
  lemma AsIsNoneIff(e: Error, target: Error -> bool)
    ensures As(e, target).None? <==> forall path :: At(e, path).Some? ==> !target(At(e, path).value)
  {
    var path := AsFinds(e, target);
    assert As(e, target).Some? ==> target(At(e, path).value);
  }

  /** `fmt.Errorf("...: %w", ...)` applied to `e`, once for each text, the first text outermost. */
  function Wrap(e: Error, texts: seq<string>): Error {
    if texts == [] then e else Wrapped(texts[0], Wrap(e, texts[1..]))
  }

  /** Wrappers that do not meet the target themselves hide nothing. */
  lemma {:induction false} WrapKeepsAs(e: Error, texts: seq<string>, target: Error -> bool)
    requires forall text, inner :: !target(Wrapped(text, inner))
    ensures As(Wrap(e, texts), target) == As(e, target)
  {
    if texts != [] {
      WrapKeepsAs(e, texts[1..], target);
    }
  }

  /** Of several joined errors, the first that has a match decides. */
  lemma JoinedFindsFirst(text: string, parts: seq<Error>, target: Error -> bool, i: nat)
    requires !target(Joined(text, parts)) && i < |parts| && As(parts[i], target).Some?
    requires forall j :: 0 <= j < i ==> As(parts[j], target).None?
    ensures As(Joined(text, parts), target) == As(parts[i], target)
  {
    AsByBelow(Joined(text, parts), target);
    hide As, AsAny;
    var k := AsAnyIsFirst(parts, target);
  }

  /** Below an HTTP error the walk goes on into its cause, when the error itself is not looked for. */
  lemma CauseIsSearched(text: string, h: HttpError, cause: Error, target: Error -> bool)
    requires !target(Http(text, h, Some(cause)))
    ensures As(Http(text, h, Some(cause)), target) == As(cause, target)
  {
  }

  /** Which HTTP error is found at any depth, and which status, whose message is the whole text unless it is on top. */
  lemma FoundInWrappers(e: Error, texts: seq<string>)
    ensures FindHttp(Wrap(e, texts)) == FindHttp(e)
    ensures e.Http? ==> FindHttp(e) == Some(e.http)
    ensures e.Grpc? ==>
              StatusFromError(Wrap(e, texts)) ==
              match e.status
              case None => None
              case Some(st) => Some(if texts == [] then st else st.(message := texts[0]))
    ensures As(e, HasGrpcStatus).None? ==> StatusFromError(Wrap(e, texts)).None?
  {
    WrapKeepsAs(e, texts, IsHttp);
    WrapKeepsAs(e, texts, HasGrpcStatus);
  }

  /** The first error of the chain that can carry a status carries one with this code. */
  ghost predicate CarriesStatus(e: Error, code: Code) {
    exists path, t ::
      FirstMet(e, path, HasGrpcStatus, t) && GrpcStatusOf(t).Some? && GrpcStatusOf(t).value.code == code
  }

  /** The first HTTP error of the chain has this code. */
  ghost predicate CarriesHttp(e: Error, httpCode: int) {
    exists path, t :: FirstMet(e, path, IsHttp, t) && t.Http? && t.http.code == httpCode
  }

  lemma CarriesStatusIff(e: Error, code: Code)
    ensures CarriesStatus(e, code) <==> StatusFromError(e).Some? && StatusFromError(e).value.code == code
  {
    var found := AsFinds(e, HasGrpcStatus);
    hide As, FirstMet, Text, GrpcStatusOf;
    forall path, t | FirstMet(e, path, HasGrpcStatus, t)
      ensures As(e, HasGrpcStatus) == Some(t)
    {
      AsIsFirstMet(e, HasGrpcStatus, t);
    }
  }

  lemma CarriesHttpIff(e: Error, httpCode: int)
    ensures CarriesHttp(e, httpCode) <==> FindHttp(e).Some? && FindHttp(e).value.code == httpCode
  {
    var found := AsFinds(e, IsHttp);
    assert As(e, IsHttp).Some? ==> As(e, IsHttp).value.Http?;
    hide As, FirstMet, Text;
    forall path, t | FirstMet(e, path, IsHttp, t)
      ensures As(e, IsHttp) == Some(t)
    {
      AsIsFirstMet(e, IsHttp, t);
    }
  }

  // ---------------------------------------------------------------- apierror.ParseError

  /** What `ParseError` returns, `None` standing for its `(nil, false)`. */
  function Parsed(err: Error, wrap: bool): Option<ApiError> {
    var inner := if wrap then Some(err) else None;
    match (StatusFromError(err), FindHttp(err))
    case (Some(st), _) => Some(ApiError(inner, Some(st), None, DetailsOf(Unpack(st.details))))
    case (None, Some(h)) =>
      var details := if h.body.None? then NO_DETAILS else DetailsOf(UnpackWellFormed(h.body.value));
      Some(ApiError(inner, Some(Status(ToCode(h.code), h.message, [])), Some(h), details))
    case (None, None) => None
  }

  method SetDetailsFromError(a: ApiError, err: Error) returns (r: ApiError, ok: bool)
    ensures ok <==> Parsed(err, true).Some?
    ensures ok && StatusFromError(err).Some? ==> r == Parsed(err, true).value.(err := a.err, httpErr := a.httpErr)
    ensures ok && StatusFromError(err).None? ==> r == Parsed(err, true).value.(err := a.err)
    ensures !ok ==> r == a
  {
    r := a;
    var st := StatusFromError(err);
    var herr := FindHttp(err);
    if st.Some? {
      r := r.(status := st);
      var details := ParseDetails(Unpack(st.value.details));
      r := r.(details := details);
    } else if herr.Some? {
      r := r.(httpErr := herr);
      var details := ParseHttpDetails(herr.value.body);
      r := r.(details := details);
      r := r.(status := Some(Status(ToCode(r.httpErr.value.code), herr.value.message, [])));
    } else {
      return r, false;
    }
    ok := true;
  }

  method ParseError(err: Option<Error>, wrap: bool) returns (r: Option<ApiError>)
    ensures r == if err.None? then None else Parsed(err.value, wrap)
  {
    if err.None? {
      return None;
    }
    var ae := ApiError(None, None, None, NO_DETAILS);
    if wrap {
      ae := ae.(err := err);
    }
    var ok;
    ae, ok := SetDetailsFromError(ae, err.value);
    if !ok {
      return None;
    }
    r := Some(ae);
  }

  /**
   An error is parsed exactly when the first error of the chain that can carry a status does, or some error of the
   chain is an HTTP error.
   */
  lemma ParsedIff(e: Error, wrap: bool)
    ensures Parsed(e, wrap).Some? <==>
            || (exists path, t :: FirstMet(e, path, HasGrpcStatus, t) && GrpcStatusOf(t).Some?)
            || (exists path :: At(e, path).Some? && At(e, path).value.Http?)
  {
    hide As, At, DetailsOf, ToCode, Unpack, UnpackWellFormed, Text, GrpcStatusOf;
    var grpc := AsFinds(e, HasGrpcStatus);
    var http := AsFinds(e, IsHttp);
    forall path, t | FirstMet(e, path, HasGrpcStatus, t)
      ensures As(e, HasGrpcStatus) == Some(t)
    {
      AsIsFirstMet(e, HasGrpcStatus, t);
    }
    assert FindHttp(e).Some? <==> As(e, IsHttp).Some?;
    assert As(e, IsHttp).Some? ==> At(e, http).Some? && At(e, http).value.Http?;
  }

  /** The details come from the values packed in the status, or in the body of the HTTP error. */
  lemma ParsedDetails(e: Error, wrap: bool, t: MessageType, m: Message)
    requires Parsed(e, wrap).Some? && !t.OtherType?
    ensures var found := Field(Parsed(e, wrap).value.details, t) == Some(m);
            if StatusFromError(e).Some? then found <==> exists i :: LastGood(StatusFromError(e).value.details, i, t, m)
            else if FindHttp(e).value.body.None? then !found
            else found <==> exists i :: LastGood(FindHttp(e).value.body.value, i, t, m)
  {
    hide StatusFromError, FindHttp, DetailsOf, Unpack, UnpackWellFormed, LastGood, ToCode;
    if StatusFromError(e).Some? {
      StatusDetailsField(StatusFromError(e).value.details, t, m);
    } else if FindHttp(e).value.body.Some? {
      HttpDetailsField(FindHttp(e).value.body.value, t, m);
    }
  }

  /**
   Without wrapping, the same status, HTTP code and details come out, but nothing leads back to the error: an HTTP
   error is not found below, so `OnHTTPCodes` never retries, while `OnCodes` decides as it does with wrapping.
   */
  lemma ParsedWithoutWrapping(e: Error)
    ensures Parsed(e, false).Some? <==> Parsed(e, true).Some?
    ensures Parsed(e, true).Some? ==>
              var bare, full := Parsed(e, false).value, Parsed(e, true).value;
              && bare.Unwrap() == None && full.Unwrap() == Some(e)
              && bare.GrpcStatus() == full.GrpcStatus() && bare.HttpCode() == full.HttpCode()
              && bare.details == full.details
              && StatusFromError(Api(bare)) == StatusFromError(Api(full))
              && FindHttp(Api(bare)) == None && FindHttp(Api(full)) == FindHttp(e)
    ensures Parsed(e, true).Some? ==>
              Parsed(e, true).value.HttpCode() ==
              if StatusFromError(e).Some? || FindHttp(e).None? then -1 else FindHttp(e).value.code
  {
    hide Text, DetailsOf, Unpack, UnpackWellFormed, ToCode;
  }

  // ---------------------------------------------------------------- what rewriting an error does to retry decisions

  /** The error that the retry loop goes on with: the `APIError` around `e` when `e` can be parsed. */
  function Rewrite(e: Error): Error {
    match Parsed(e, true)
    case Some(a) => Api(a)
    case None => e
  }

  /** Rewriting `n` times over, as nested retry loops do. */
  function RewriteN(e: Error, n: nat): Error {
    if n == 0 then e else Rewrite(RewriteN(e, n - 1))
  }

  function UnwrapN(e: Error, n: nat): Option<Error> {
    if n == 0 then Some(e)
    else match e
      case Api(a) => if a.Unwrap().None? then None else UnwrapN(a.Unwrap().value, n - 1)
      case _ => None
  }

  /** Does `boRetryer` retry `e`? */
  predicate GrpcDecision(e: Error, codes: seq<Code>) {
    match StatusFromError(e) case Some(st) => st.code in codes case None => false
  }

  /** Does `httpRetryer` retry `e`? */
  predicate HttpDecision(e: Error, codes: seq<int>) {
    match FindHttp(e) case Some(h) => h.code in codes case None => false
  }

  /** Wrapping never hides the HTTP error from `errors.As`, whatever the chain below looks like. */
  lemma RewriteKeepsHttp(e: Error)
    ensures FindHttp(Rewrite(e)) == FindHttp(e)
    ensures forall codes :: HttpDecision(Rewrite(e), codes) == HttpDecision(e, codes)
  {
  }

  /** Wrapping keeps a gRPC status, message included, and gives an HTTP-only error the mapped one. */
  lemma RewriteStatus(e: Error)
    ensures StatusFromError(e).Some? ==> StatusFromError(Rewrite(e)) == StatusFromError(e)
    ensures StatusFromError(e).None? && FindHttp(e).Some? ==>
              var h := FindHttp(e).value;
              StatusFromError(Rewrite(e)) == Some(Status(ToCode(h.code), h.message, []))
    ensures StatusFromError(e).None? && FindHttp(e).None? ==> Rewrite(e) == e
  {
  }

  /** The decision of `OnCodes` inside a retry loop, for every error. */
  lemma GrpcDecisionAfterRewrite(e: Error, codes: seq<Code>)
    ensures GrpcDecision(Rewrite(e), codes) <==>
            || (StatusFromError(e).Some? && StatusFromError(e).value.code in codes)
            || (StatusFromError(e).None? && FindHttp(e).Some? && ToCode(FindHttp(e).value.code) in codes)
  {
  }

  /** Any number of applications of `FromError`, once one has succeeded, shows the same status and HTTP error. */
  lemma {:induction false} RewriteNStable(e: Error, n: nat)
    requires n >= 1
    ensures StatusFromError(RewriteN(e, n)) == StatusFromError(Rewrite(e))
    ensures FindHttp(RewriteN(e, n)) == FindHttp(e)
    ensures Parsed(e, true).Some? ==> UnwrapN(RewriteN(e, n), n) == Some(e)
    ensures Parsed(e, true).None? ==> RewriteN(e, n) == e
  {
    hide Text, As, FindHttp, StatusFromError, DetailsOf, UnpackWellFormed, ToCode;
    var prev := RewriteN(e, n - 1);
    assert RewriteN(e, n) == Rewrite(prev);
    RewriteKeepsHttp(prev);
    RewriteStatus(prev);
    RewriteStatus(e);
    if n == 1 {
      assert prev == e;
      assert UnwrapN(e, 0) == Some(e);
    } else {
      RewriteNStable(e, n - 1);
    }
  }

  /** So nested retry loops and a single one decide alike. */
  lemma RewriteNDecisions(e: Error, n: nat, codes: seq<Code>, httpCodes: seq<int>)
    requires n >= 1
    ensures GrpcDecision(RewriteN(e, n), codes) == GrpcDecision(Rewrite(e), codes)
    ensures HttpDecision(RewriteN(e, n), httpCodes) == HttpDecision(e, httpCodes)
  {
    hide Text, As, FindHttp, StatusFromError, Parsed;
    RewriteNStable(e, n);
  }

  /**
   What a second application may lose: the HTTP code and the HTTP details, unless the error had a gRPC status, or
   there was nothing to lose.
   */
  lemma SecondRewriteKeepsIff(e: Error)
    requires Parsed(e, true).Some?
    ensures Rewrite(e).Api? && Rewrite(Rewrite(e)).Api?
    ensures Rewrite(Rewrite(e)).api.HttpCode() == Rewrite(e).api.HttpCode() <==>
            StatusFromError(e).Some? || FindHttp(e).value.code == -1
    ensures Rewrite(Rewrite(e)).api.details == Rewrite(e).api.details <==>
            StatusFromError(e).Some? || Rewrite(e).api.details == NO_DETAILS
    ensures StatusFromError(e).None? ==>
              && Rewrite(e).api.HttpCode() == FindHttp(e).value.code
              && Rewrite(Rewrite(e)).api.HttpCode() == -1
              && Rewrite(Rewrite(e)).api.details == NO_DETAILS
  {
    hide Text, ToCode, FindHttp, UnpackWellFormed;
    RewriteStatus(e);
  }

  // ---------------------------------------------------------------- what rewriting does to the text

  /** The first part of the text of the `APIError` around `e`. */
  function Front(e: Error): string
    requires Parsed(e, true).Some?
  {
    if StatusFromError(e).Some? then Text(e)
    else
      var h := FindHttp(e).value;
      "googleapi: Error " + Itoa(h.code) + ": " + h.message
  }

  /** A text that is in the first part, or in the printed details. */
  predicate Quotes(e: Error, sub: string)
    requires Parsed(e, true).Some?
  {
    Contains(Front(e), sub) || Contains(DetailsText(Parsed(e, true).value.details), sub)
  }

  lemma RewrittenText(e: Error)
    requires Parsed(e, true).Some?
    ensures Text(Rewrite(e)) == TrimSpace(Front(e) + "\n" + DetailsText(Parsed(e, true).value.details))
  {
    hide TrimSpace, DetailsText, Itoa, StatusFromError, FindHttp, DetailsOf;
  }

  lemma RewriteQuotes(e: Error, sub: string)
    requires Parsed(e, true).Some? && Solid(sub)
    ensures Contains(Text(Rewrite(e)), sub) <==> Quotes(e, sub)
  {
    hide TrimSpace, DetailsText, Itoa, StatusFromError, FindHttp, DetailsOf, Text, Contains, Front, Solid;
    RewrittenText(e);
    var front, details := Front(e), DetailsText(Parsed(e, true).value.details);
    ContainsTrimSpace(front + "\n" + details, sub);
    ContainsTwoLines(front, details, sub);
  }

  /** Wrapping what is wrapped already brings no new text in. */
  lemma SecondRewriteQuotes(e: Error, sub: string)
    requires Parsed(e, true).Some? && Solid(sub)
    ensures Parsed(Rewrite(e), true).Some?
    ensures Quotes(Rewrite(e), sub) <==> Contains(Text(Rewrite(e)), sub)
  {
    hide TrimSpace, Itoa, FindHttp, Text;
    RewriteStatus(e);
    SecondRewriteKeepsIff(e);
    RewriteQuotes(e, sub);
    NoDetailsText();
    assert !Contains("", sub);
    assert Front(Rewrite(e)) == Text(Rewrite(e));
  }

  lemma NoDetailsText()
    ensures DetailsText(NO_DETAILS) == ""
  {
    assert Lines(NO_DETAILS) == ["", "", "", "", "", "", "", "", "", "", ""];
    EmptyConcat(Lines(NO_DETAILS));
  }

  /** No white space at either end. */
  predicate Trimmed(s: string) {
    s != "" && !IsSpace(s[0]) && !IsSpace(s[|s| - 1])
  }

  /** What an `APIError` without details prints, when there is no white space to be cut off. */
  lemma TextWithoutDetails(a: ApiError, http: string)
    requires a.details == NO_DETAILS
    requires a.httpErr.Some? ==>
               http == "googleapi: Error " + Itoa(a.httpErr.value.code) + ": " + a.httpErr.value.message
    ensures a.httpErr.Some? && Trimmed(http) ==> Text(Api(a)) == http
    ensures a.httpErr.None? && a.status.Some? && a.err.Some? && Trimmed(Text(a.err.value)) ==>
              Text(Api(a)) == Text(a.err.value)
    ensures a.httpErr.None? && a.status.Some? && a.err.None? && Trimmed(a.status.value.message) ==>
              Text(Api(a)) == a.status.value.message
  {
    hide Itoa, DetailsText, TrimSpace, Trimmed;
    NoDetailsText();
    forall s | Trimmed(s)
      ensures TrimSpace(s + "\n" + "") == s
    {
      TrimOfTrimmed(s);
      assert s + "\n" + "" == s + "\n";
    }
  }

  lemma TrimOfTrimmed(s: string)
    requires Trimmed(s)
    ensures TrimSpace(s + "\n") == s
  {
    var t := s + "\n";
    assert t[0] == s[0] && t[|t| - 1] == '\n' && t[..|t| - 1] == s;
    assert TrimLeft(t) == t && TrimRight(t) == TrimRight(s) == s;
  }

  /** Every text in the printed line of a detail is in the text of the error, however often it is wrapped. */
  lemma DetailsReachTheText(e: Error, n: nat, t: MessageType, sub: string)
    requires n >= 1 && Parsed(e, true).Some? && Solid(sub)
    requires Field(Parsed(e, true).value.details, t).Some?
    requires Contains(Field(Parsed(e, true).value.details, t).value.line, sub)
    ensures Contains(Text(RewriteN(e, n)), sub)
  {
    hide Text, Contains, Solid, Parsed, Front, DetailsText, Field;
    var details := Parsed(e, true).value.details;
    DetailsArePrinted(details);
    ContainsTrans(DetailsText(details), Field(details, t).value.line, sub);
    RewriteNQuotes(e, n, sub);
  }

  /** The text of a wrapped error contains exactly what one wrapping brings in, however often it is wrapped. */
  lemma {:induction false} RewriteNQuotes(e: Error, n: nat, sub: string)
    requires n >= 1 && Parsed(e, true).Some? && Solid(sub)
    ensures Parsed(RewriteN(e, n), true).Some?
    ensures Contains(Text(RewriteN(e, n)), sub) <==> Quotes(e, sub)
    ensures Quotes(RewriteN(e, n), sub) <==> Quotes(e, sub)
  {
    hide Text, Contains, Solid, Quotes, Parsed;
    var prev := RewriteN(e, n - 1);
    assert RewriteN(e, n) == Rewrite(prev);
    if n == 1 {
      assert prev == e;
    } else {
      RewriteNQuotes(e, n - 1, sub);
    }
    RewriteQuotes(prev, sub);
    SecondRewriteQuotes(prev, sub);
  }
}
