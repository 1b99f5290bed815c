# gax-go: a verified model

This project models the runtime core of gax-go v2 and proves what it promises.

* **The retry loop.** `Invoke.dfy` is the loop behind `gax.Invoke`, `Retryers.dfy` the retryers, `Backoff.dfy` the
  exponential backoff and its arithmetic, `Contexts.dfy` deadlines and telemetry values, `InvokeTheorems.dfy` the
  theorems about whole runs. Calls, sleepers and the random source are functions of the attempt number, so a theorem
  about every `Run` is a theorem about every history, however the environment behaves.
* **Errors.** `Errors.dfy` has wrapper chains, `errors.As`, `status.FromError` and `apierror.ParseError`;
  `Details.dfy` the error details.
* **The content sniffer.** `ContentType.dfy`, over a reader that cuts its bytes as it likes, and over stacks of sniffers.
* **Headers.** `Header.dfy` merges and prints them, `GoVersion.dfy` makes the version that goes into them,
  `CallCtx.dfy` keeps them in contexts, on slices with shared backing arrays.
* **The range adapter** (`RangeAdapter.dfy`) and **the feature cache** (`Feature.dfy`).

`Prelude.dfy` holds what the others share. Objects whose methods change fields are classes, loops are loops; each such
method is tied to a specification function or a declarative contract, and the properties are proved about that.

## Where code and documentation part, and where a plausible claim fails

* The documentation of `OnCodes`, `OnHTTPCodes` and `OnErrorFunc` says that the backoff is used only for its
  parameters. The copy also takes over the current period. That makes no difference exactly when this period is not set
  or is the initial one (`CopyUsesParametersOnlyIff`); a backoff from 1 to 10 that has paused once is copied with
  period 2 (`PausedCopyDiffers`).
* The documentation of `InsertMetadataIntoOutgoingContext` and `BuildHeaders` says that existing values are not
  overwritten. For `x-goog-api-client` they are, as soon as a value is given (`ExistingValuesKeptIff`,
  `ClientHeaderReplaced`).
* Retry loops inside retry loops do not always decide as a single one does. The retryers do, but the guard for
  certificate errors searches the text of the wrapped error, and that text prints the error details. The decisions
  differ exactly when a single loop retries the error and the printed front or the printed details of the error contain
  the certificate text, at whatever depth (`NestedLoopDecision`). `NestedGuardDiffers` has a gRPC status whose debug
  information quotes that text.
* Sniffing a sniffed reader again gives the same type unless the reader has exactly 512 bytes left, its final error is
  not `EOF`, and that error comes together with the last bytes (`DetermineTwice`; `SecondSniffDiffers` is the case).
* A second `FromError` keeps the status and the wrapped errors. It keeps the HTTP code exactly when the error had a gRPC
  status or the code was -1, and the details exactly when the error had a gRPC status or no details
  (`SecondRewriteKeepsIff`).
* The documentation of `IsFeatureEnabled` asks for variables that start with `GOOGLE_SDK_GO_EXPERIMENTAL_`. The shorter
  `GOOGLE_SDK_GO_` enables a feature as well, namely the one named after it, unless the name starts with
  `EXPERIMENTAL_` (`EntryEnables`).
* Truncation can hold a backoff at its start for ever; `EnvelopeReachesMaxIff` says when.

## Model

| member | source | states |
|---|---|---|
| Invocations.InvokeLoop | v2/invoke.go:80-141 | With one retryer reused for the whole run, the loop returns the result and leaves the history of the per-attempt specification, which has no loop variables; it ends at the first attempt that ends it |
| Invocations.Attempt | v2/invoke.go:104-139 | One turn: call, certificate guard, rewriting, retryer made at the first failure only, decision, and a sleep that starts when the call has returned |
| Invocations.LastOptionWins | v2/call_option.go:210-230 | After folding the options each setting is that of the last option of its kind |
| Invocations.NoOptionLeavesZero | v2/invoke.go:57-60 | A setting without an option keeps its zero value |
| InvokeTheorems.Invoke | v2/invoke.go:54-62 | The loop runs with the folded options and the real Sleep |
| InvokeTheorems.SleepFits | v2/invoke.go:64-75 | A positive sleep succeeds iff its timer goes off before both the deadline and the cancellation, and then takes its time; otherwise it ends with the context and returns what ended it |
| InvokeTheorems.DoneIsEarliest | v2/invoke.go:70 | A context is done at the earlier of its deadline and its cancellation |
| InvokeTheorems.TimePasses | v2/invoke.go:108-138 | An attempt that goes on takes its call, and from the call's return the k-th backoff pause, at least 1ns, over before the end of the context; then the next attempt starts |
| InvokeTheorems.RecordedTime | v2/invoke.go:92-97 | The recorded time is the sum of all calls, completed pauses and wake-up delays, or ends with the context when the last sleep fails |
| InvokeTheorems.StopsIff | v2/invoke.go:108-138 | An attempt goes on iff the call, given that attempt's context and the settings, fails in a retried way and its pause, counted from the call's return, is over in time |
| InvokeTheorems.EndsAtFirstPauseThatDoesNotFit | v2/invoke.go:103-140 | With every call failing in a retried way the run ends exactly at the first pause that does not fit, with the context's error |
| InvokeTheorems.EndsWithFirstSuccess | v2/invoke.go:103-140 | Without an end of the context and with every failure retried the run ends exactly with the first call that succeeds, and returns nil |
| InvokeTheorems.ServerSeesResendCount | v2/invoke.go:101-108 | A server that answers only resend count m is reached in attempt m with tracing, and never without |
| InvokeTheorems.DeadlineHalts | v2/invoke.go:103-140 | With a deadline D the loop ends whatever the calls return, after at most max(0, D-T0)+1 calls; all calls but the last and the completed pauses take at most D-T0 together |
| InvokeTheorems.InvokeBeforeDeadline | v2/invoke.go:80-141 | The same for the method: total correctness without any assumption about the calls |
| InvokeTheorems.WithoutDeadlineNeverHalts | v2/invoke.go:103-140 | Without an end of the context and with every call failing in a retried way the loop never ends |
| InvokeTheorems.OneDeadline | v2/invoke.go:83-138 | Every call and every sleep in the whole history sees one deadline: the caller's, else the start plus the timeout if that is set |
| InvokeTheorems.HistoryShape | v2/invoke.go:100-140 | n+1 calls and n successful sleeps strictly alternate, then at most one failed sleep whose error is returned; the factory is called at most once |
| InvokeTheorems.StepsAlternate | v2/invoke.go:103-139 | The same alternation for every unfinished run |
| InvokeTheorems.ResultShape | v2/invoke.go:91-138 | nil iff the last call returned nil; otherwise the raw certificate error, the wrapped last error, the unparseable last error, or the sleeper's error; with metrics the history has exactly one record, of that result and last, and without them none |
| InvokeTheorems.ResendCounts | v2/invoke.go:49-52 | With tracing attempt k announces resend count k, which reads back as k; all other values are the caller's |
| InvokeTheorems.WaitingTime | v2/invoke.go:127-138 | The waits of a run add up to the first n pauses of one backoff: at least n, at most n*Max, and (M-1)*sum <= Initial*(M^n-1) for integral M |
| InvokeTheorems.LoopAsks | v2/invoke.go:118-138 | Nothing is retried without an error and a retryer; a custom retryer is asked about the rewritten error unless it is a certificate error |
| InvokeTheorems.LoopDecision | v2/invoke.go:118-138 | By position in the chain: OnHTTPCodes retries iff the first HTTP error in depth-first order has a listed code; OnCodes iff the first status has a listed code or, without a status, the HTTP code stands for a listed one; OnErrorFunc iff the predicate holds of the rewritten error; certificate errors never |
| InvokeTheorems.DecisionAtDepth | v2/call_option.go:110-157 | An HTTP error or a gRPC status below any number of wrappers is retried iff its own code is listed, or stands for a listed one |
| InvokeTheorems.NestedLoopDecision | v2/invoke.go:112-138 | A loop that is handed an error wrapped n times decides as a single one does iff the single one does not retry, or the error is unparseable, or neither its front nor its details as printed contain the certificate text; the condition is the same for every n |
| InvokeTheorems.NestedGuardDiffers | v2/invoke.go:118-120 | An Unavailable status whose DebugInfo quotes the certificate text is retried by one loop and by no loop around it, however deep |
| Retryers.Retryer.constructor | v2/call_option.go:98-139 | Each retryer starts with its own copy of the backoff and the listed codes |
| Retryers.Retryer.RetryCode | v2/call_option.go:110-122 | Yes iff the status code found in the chain is listed; the k-th yes gives the k-th pause |
| Retryers.Retryer.RetryHttp | v2/call_option.go:146-157 | Yes iff the chain has an HTTP error with a listed code |
| Retryers.Retryer.RetryFunc | v2/call_option.go:85-91 | Yes iff the predicate holds of the error |
| Backoffs.Backoff.Pause | v2/call_option.go:184-208 | The k-th call, whatever fields were zero, returns a value drawn from 1 to the k-th envelope, and the fields then hold the next envelope |
| Backoffs.ZeroBackoff | v2/call_option.go:161-208 | The zero backoff has the envelopes 1s, 2s, 4s and so on, and 30s from then on |
| Backoffs.UnsetInitial | v2/call_option.go:186-191 | Without Initial alone the first period is one second |
| Backoffs.UnsetMax | v2/call_option.go:192-194 | Without Max alone the cap is 30 seconds |
| Backoffs.SmallMultiplier | v2/call_option.go:195-197 | With a multiplier below 1, zero included, the period doubles |
| Backoffs.PeriodsOfFields | v2/call_option.go:184-208 | For any fields and real multipliers: the first period, and each next one as the truncated product or the cap |
| Backoffs.EveryLengthPossible | v2/call_option.go:198-202 | Every length from 1ns to the envelope can be drawn |
| Backoffs.EnvelopeFits | v2/call_option.go:203 | In usable settings no product leaves the 64-bit range |
| Backoffs.CopyResumes | v2/call_option.go:98-103 | A copy of a backoff that has paused j times has the original's envelopes from the j-th on |
| Backoffs.CopyUsesParametersOnlyIff | v2/call_option.go:98-103 | A copy pauses as its parameters alone would iff its current period is not set or is the initial one |
| Backoffs.PausedCopyDiffers | v2/call_option.go:95-103 | One pause is enough to make a copy differ |
| Backoffs.EnvelopeClosedForm | v2/call_option.go:159-164 | For integral M the envelope is min(Max, Initial*M^k), the first one uncapped |
| Backoffs.EnvelopeBounds | v2/call_option.go:202-206 | For real M the envelope is at most Initial*M^k, and at least that minus the geometric sum, or the cap |
| Backoffs.GeometricClosed | v2/call_option.go:202-206 | (M-1) times that geometric sum is M^k-1 |
| Backoffs.EnvelopeNondecreasing | v2/call_option.go:189-206 | From a start within the cap the period never shrinks, so it never returns to the 0 that restarts it |
| Backoffs.EnvelopeReachesMaxIff | v2/call_option.go:189-206 | The cap is reached iff the start is at least the cap or one step is worth a nanosecond, then within Max-Initial pauses and for good; otherwise the period stays at its start |
| Backoffs.TotalPauseBounds | v2/call_option.go:198-208 | n pauses last at least n and at most n*Max |
| Backoffs.TotalPauseGeometric | v2/call_option.go:198-208 | For integral M, (M-1)*sum <= Initial*(M^n-1) |
| Errors.AsIsFirstMet | v2/apierror/apierror.go:300-302 | errors.As finds exactly the first error, in depth-first order of Unwrap steps, that meets the target |
| Errors.AsIsNoneIff | v2/apierror/apierror.go:300-302 | It finds nothing iff no error that Unwrap steps reach meets the target |
| Errors.WrapKeepsAs | v2/apierror/apierror.go:300-302 | Any number of wrappers hides nothing from it |
| Errors.JoinedFindsFirst | v2/apierror/apierror.go:300-302 | Of joined errors the first with a match decides |
| Errors.CauseIsSearched | v2/apierror/apierror.go:300-302 | The search goes on into the cause of an HTTP error that is not itself looked for |
| Errors.FoundInWrappers | v2/apierror/apierror.go:299-302 | At any depth the HTTP error is found, and the status, with the whole text as message unless it is on top |
| Errors.ToCodeIff | v2/apierror/apierror.go:53-84 | Exactly which HTTP codes stand for each gRPC code, by number |
| Errors.ParseError | v2/apierror/apierror.go:325-340 | The APIError of the status found first in the chain, else of the HTTP error, else none; wrapped when asked |
| Errors.ParsedIff | v2/apierror/apierror.go:299-316 | An error is parsed iff the first error of its chain that can carry a status does, or an HTTP error is anywhere in the chain |
| Errors.ParsedDetails | v2/apierror/apierror.go:304-309 | Each details field holds the last value of its type that decodes among those packed in the status, or in the body of the HTTP error |
| Errors.ParsedWithoutWrapping | v2/apierror/apierror.go:325-340 | Without wrapping: same status, code and details, but Unwrap gives nothing, so the HTTP error is not found again |
| Errors.SetDetailsFromError | v2/apierror/apierror.go:293-316 | Fills status and details from a gRPC status before an HTTP error, and nothing when neither parses |
| Errors.RewriteKeepsHttp | v2/apierror/apierror.go:231-234 | Wrapping never hides an HTTP error from errors.As, nor changes an OnHTTPCodes decision |
| Errors.RewriteStatus | v2/apierror/apierror.go:262-272 | Wrapping keeps a gRPC status, gives an HTTP-only error the mapped one, and leaves other errors alone |
| Errors.GrpcDecisionAfterRewrite | v2/apierror/apierror.go:299-316 | The OnCodes decision about a wrapped error in terms of the original one |
| Errors.RewriteNStable | v2/apierror/apierror.go:321-340 | After any number of FromErrors the status is that of the first, the HTTP error is found as before and n Unwraps give the original error |
| Errors.RewriteNDecisions | v2/apierror/apierror.go:321-340 | So the retryers decide alike after any number of wrappings |
| Errors.SecondRewriteKeepsIff | v2/apierror/apierror.go:299-316 | A second FromError keeps the HTTP code iff the error had a status or the code was -1, and the details iff it had a status or there were none; otherwise they become -1 and empty |
| Errors.RewriteNQuotes | v2/apierror/apierror.go:236-259 | The text of an error wrapped any number of times contains a text without line breaks or outer white space iff what one wrapping prints, the front or the details, contains it |
| Errors.DetailsReachTheText | v2/apierror/apierror.go:236-249 | Every text in the line printed for a detail is in the text of the error, however often it is wrapped |
| Errors.TextWithoutDetails | v2/apierror/apierror.go:236-249 | What is printed without details: the HTTP code and message, the wrapped error's text, or the status message |
| Prelude.TrimSpaceIs | v2/apierror/apierror.go:249 | Trimming cuts white space off both ends of a text and nothing else |
| Prelude.ItoaNegative | v2/apierror/apierror.go:242 | A negative code is printed with a minus sign, and its digits read back |
| Details.ParseDetails | v2/apierror/apierror.go:342-377 | Each known field is the message at the last position of its type, Unknown the rest in order |
| Details.ParseHttpDetails | v2/apierror/apierror.go:379-403 | In terms of the body: each field is the last value that decodes to its type, Unknown the decoding values of other types in order; nothing for a body off the schema |
| Details.HttpDetailsField | v2/apierror/apierror.go:392-402 | A field holds a message iff some position of the body decodes to it and no later one decodes to its type |
| Details.HttpUnknown | v2/apierror/apierror.go:392-402 | Unknown holds exactly the decoding values of other types, in the order of the body |
| Details.UnpackKeepsTheGood | v2/apierror/apierror.go:393-400 | The decoded list holds exactly the values that decode |
| Details.StatusDetailsField | v2/apierror/apierror.go:304-306 | The same for the values packed in a gRPC status |
| Details.StatusUnknown | v2/apierror/apierror.go:371-373 | There Unknown also holds, in place, the values that do not decode |
| Details.DetailsArePrinted | v2/apierror/apierror.go:127-215 | The line of every known detail, and the text of every unknown one, is in the printed details |
| Details.DetailsHomomorphism | v2/apierror/apierror.go:347-377 | Parsing a concatenation is merging the parses |
| Details.LastOfIsLast | v2/apierror/apierror.go:349-371 | A field holds exactly a message after which its type does not occur |
| Details.UnknownHoldsExactlyOtherTypes | v2/apierror/apierror.go:371-373 | Unknown holds exactly the items of no known type |
| Details.ExtractProtoMessage | v2/apierror/apierror.go:106-125 | The first message of the asked type in Unknown, not found for nil or when there is none |
| Details.FirstOfIsFirst | v2/apierror/apierror.go:115-123 | That search finds exactly a message before which its type does not occur |
| Details.ExtractFindsFirstOfOtherType | v2/apierror/apierror.go:106-125 | After parsing that is the first such message of the original list, and never one of a known type |
| Contexts.WithTelemetryContext | v2/callctx/callctx.go:106-121 | Adds the given pairs as bindings, in order |
| Contexts.TelemetryLastWins | v2/callctx/callctx.go:123-128 | The last value given for a key wins, other keys keep the parent's |
| Contexts.WithRetryCount | v2/invoke.go:45-52 | Binds resend_count to the decimal retry count |
| ContentTypes.Sniffer.Read | v2/content_type.go:54-72 | Delivers exactly the next bytes of the wrapped reader; an error only after all bytes, a sniff error then on every read without touching the wrapped reader |
| ContentTypes.Sniffer.ContentType | v2/content_type.go:74-90 | A query takes nothing from the reader; the type is that of the first min(512, length) bytes for every chunking; repeated queries change nothing; it fails iff an error other than EOF is met within 512 bytes |
| ContentTypes.Media.ReadAllLimited | v2/content_type.go:81 | The buffering loop takes at most the limit, loses nothing and reports no EOF |
| ContentTypes.DetermineContentType | v2/content_type.go:92-112 | The returned reader has the same bytes and final error to deliver; media that know their type are returned untouched; for the others the type is empty iff the sniff meets an error other than EOF |
| ContentTypes.DetermineTwice | v2/content_type.go:92-112 | Sniffing twice gives the same stream, and the same type iff the media know their type, or end with EOF, or have other than 512 bytes left, or return their final error alone |
| ContentTypes.SecondSniffDiffers | v2/content_type.go:79-90 | That exception occurs |
| ContentTypes.SameBytesSameType | v2/content_type.go:79-90 | Readers of the same bytes have the same type however they cut them |
| ContentTypes.Interleave | v2/content_type.go:54-90 | Any interleaving of reads and queries delivers the bytes in order, once; an error comes only after all of them and is the final one; after a failed sniff it comes on every later read; all queries agree |
| Headers.InsertMetadata | v2/header.go:157-200 | For every order of the context headers: metadata ++ context ++ arguments for each key, one joined value for x-goog-api-client when one is given, and exactly which keys exist |
| Headers.ExistingValuesKeptIff | v2/header.go:136-138 | Existing values stay in front for every key but the merged one, and exactly when for that one |
| Headers.ContextThenArguments | v2/header.go:168-192 | Setting headers on the context and giving more later is giving them all at once, context first, for the merged header too |
| Headers.MergedSplitsBack | v2/header.go:168-197 | The merged header is one value that splits at spaces into the given values iff none of them has a space |
| Headers.EmptyContextHeader | v2/header.go:168-177 | A context header without values makes an empty entry, unless it is the merged one |
| Headers.ClientHeaderReplaced | v2/header.go:194-197 | An existing client header is replaced when another is given |
| Headers.XGoogHeader | v2/header.go:106-127 | Prints the pairs separated by single spaces, key and value by a slash |
| Headers.HeaderRoundTrip | v2/header.go:110-127 | Splitting on spaces and first slashes recovers the list iff there is no space in it and no slash in a key |
| GoVersions.GoVersion | v2/header.go:61-104 | Computes the reported version |
| GoVersions.ReportedHasNoSpace | v2/header.go:61-64 | No white space in the result for any runtime version |
| GoVersions.ReleasedVersion | v2/header.go:83-101 | go1.minor[.patch][pre] gives 1.minor.patch, patch 0 by default, with one dash before pre |
| GoVersions.OtherVersions | v2/header.go:68-103 | devel versions give the word after "devel +", go1 gives 1.0, a trailing dot gets a 0, anything else is UNKNOWN |
| GoVersions.ReportedIsLegalValue | v2/header.go:46-49 | The reported version reads back from a printed header |
| CallCtxs.Append | v2/callctx/callctx.go:83 | Appends in place when there is room, else in a new array |
| CallCtxs.CloneHeaders | v2/callctx/callctx.go:88-101 | Equal headers on new arrays only |
| CallCtxs.SetHeaders | v2/callctx/callctx.go:66-86 | Appends the values to those of the parent, and writes no map or array that existed before |
| CallCtxs.SetAll | v2/callctx/callctx.go:66-86 | After any program of SetHeaders calls on shared contexts every context shows exactly the headers of its own path |
| CallCtxs.HeadersAreThePath | v2/callctx/callctx.go:56-64 | The values of a key are those given on the path, in order |
| Headers.ExtendCompose | v2/callctx/callctx.go:82-84 | Setting a then b is setting a ++ b |
| Headers.ExtendOne | v2/callctx/callctx.go:82-84 | Setting one pair appends the second to the values of the first |
| RangeAdapters.RangeAdapter.Range | v2/iterator/iterator.go:46-63 | One pass, broken anywhere, extends what was yielded; after an error nothing is called or yielded again |
| RangeAdapters.RangeAdapter.RangeAll | v2/iterator/iterator.go:46-63 | The same over any number of passes |
| RangeAdapters.YieldedPairs | v2/iterator/iterator.go:46-63 | The i-th pair yielded is the i-th result; Done is never yielded, another error once and last |
| Features.FeatureCache.IsFeatureEnabled | v2/feature.go:44-71 | True iff the environment of the first query has an entry that enables the name |
| Features.FeatureCache.TestOnlyResetIsFeatureEnabled | v2/feature.go:73-81 | The next query reads the environment again |
| Features.FlagName | v2/feature.go:54-67 | The one name that an entry enables: what stands between the longer matching prefix and the first equals sign, if the value is true in any case |
| Features.QueryAll | v2/feature.go:44-71 | Over any sequence of queries and environment changes the first environment decides |
| Features.EntryEnables | v2/feature.go:52-67 | For any entry with either prefix, written out: it enables exactly the name after the longer matching prefix, and only with a value that is true in any case |

## Left out

- Backoffs.Backoff.Pause: float64 products are taken as exact real products and then truncated; rounding of the product is not modelled. Negative settings, and settings whose largest product leaves the 64-bit range, are excluded: there the source panics or its result depends on the platform.
- Invocations.InvokeLoop: a method has to end, so runs that never end are excluded (`Halts`); `DeadlineHalts` shows when there are none. The settings passed to every call are the same value.
- InvokeTheorems.SleepFits: assumes that whichever of timer and context is ready first wins the select; ties are decided either way and waking may be late.
- Retryers.Retryer.constructor: the three retryer types are one class with a tag. A custom retryer's answer depends on the error and on how often it said yes; a factory that hands out one retryer twice is not modelled.
- Errors.ParseError: APIError is a value, since nothing changes it after it is built; `errors.As` is its documented walk without custom `As` methods; a gRPC status carries its details as packed values that decode or do not.
- Details.ExtractProtoMessage: returns the message that is merged into the argument; the merging itself belongs to the protobuf library.
- Details.ParseHttpDetails: starts from the decoded body; JSON decoding is not modelled. How one message is printed is a field of the message.
- ContentTypes.Sniffer.Read: the wrapped reader is finite and repeats its final error; content detection is any function of the bytes with non-empty results.
- Headers.InsertMetadata: starts from the copy of the outgoing metadata, whose keys the gRPC library lowers; `BuildHeaders` and `InsertMetadataIntoOutgoingContext` only wrap it. An odd number of arguments panics and is excluded, here and in `SetHeaders`, `XGoogHeader` and `WithTelemetryContext`.
- GoVersions.GoVersion: strings are sequences of characters, not of bytes.
- Features.FlagName: lower-casing is that of ASCII letters. The once-guard is a flag; concurrent first calls are not modelled.
- RangeAdapters.RangeAdapter.Range: a pass that neither breaks nor meets an error is excluded, since a method has to end.
- `APIError.Reason`, `Domain`, `Metadata`, `Message`: plain accessors.
- The logger stored in a context: one binding, no property beyond storing it.
- `v2/telemetry.go`: only the event that a result is recorded is kept.
- `v2/proto_json_stream.go`: its behaviour is that of the JSON decoder it wraps.
- `v2/internallog`, `v2/internallog/grpclog`: logging.
- The root package: aliases and forwarders to v2.
