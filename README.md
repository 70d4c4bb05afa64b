# qstash-simulator in Dafny

A model of the core of a small message-relay service that imitates a hosted
publish/deliver queue. A client POSTs to `/v1/publish/<destination>` or
`/v2/publish/<destination>` with a body. The relay answers 201 at once with a
fresh `messageId`. A single background worker later POSTs the same body to
the destination.

The model has four modules:

- `Rewrite` (`rewrite.dfy`): `ReplaceAll`, a replace-all with the semantics of
  Rust's `str::replace` for a non-empty pattern. It scans left to right,
  replaces the leftmost match, and resumes after it, so matches never overlap.
  It comes with the lemmas that pin this semantics down.
- `Target` (`target.dfy`): the handler's destination normalisation.
  `StripRoute` removes every `v1/publish/`, then every `v2/publish/`.
  `NormalizeTarget` then rewrites every `localhost` to `host.docker.internal`
  when the relay runs in a container.
- `Http` (`http.dfy`): the 201 acknowledgement and its JSON body
  `{"messageId":"<uuid>"}`. Also the middleware error handler (408 for a
  timeout, 500 with `Unhandled internal error: ` otherwise) and the 404
  fallback.
- `Dispatch` (`dispatch.dfy`): the pipeline as a class `Relay`.
  - The channel's buffer is a `seq` field bounded by 100.
  - `Send` and `Publish` model the handler.
  - `DeliverNext` models one turn of the worker loop, and `RunWorker` models
    the loop itself.
  - Ghost fields record every job sent, every job POSTed with its outcome,
    and the jobs lost when the worker dies.

Failure behaviour follows the code. A failed POST hits the `unwrap` on the
outbound call and panics the worker task. That closes the channel and loses
the jobs still buffered. Every later `send` fails, and the handler's `unwrap`
panics. A non-2xx status is only logged, and the worker goes on.

## Model

| member | source | states |
|---|---|---|
| `Rewrite.ReplaceAll` | src/main.rs:105-109 | Replacing by a string no longer than the pattern never lengthens the text. Replacing by one no shorter never shortens it. |
| `Rewrite.ReplaceAllUnchanged` | src/main.rs:105-109 | Text in which the pattern does not occur is returned unchanged. |
| `Rewrite.ReplaceAllChanges` | src/main.rs:105-109 | If the pattern occurs, replacing it by something shorter strictly shortens the text, and by something longer strictly lengthens it. |
| `Rewrite.ReplaceAllUnchangedIff` | src/main.rs:105-109 | For a replacement of different length, the text is unchanged if and only if the pattern does not occur. |
| `Rewrite.ReplaceAllKeepsPrefix` | src/main.rs:105-109 | Everything before the first match is copied verbatim. |
| `Rewrite.ReplaceAllAtFirstMatch` | src/main.rs:105-109 | The result is the text before the leftmost match, then the replacement, then the scan of what follows the match. |
| `Rewrite.RemoveAllDeletesOnly` | src/main.rs:105-106 | Replacing by the empty string only deletes characters. The result is a subsequence of the input. |
| `Target.StripRoute` | src/main.rs:105-106 | Route stripping never adds, changes or reorders characters. Its result is a subsequence of the path and no longer than it. |
| `Target.NormalizeTarget` | src/main.rs:105-110 | Outside a container the enqueued target is a subsequence of the path and no longer than it. Inside one it is never shorter than the stripped path. |
| `Target.StripRouteUnchanged` | src/main.rs:105-106 | Stripping leaves the path unchanged if and only if neither `v1/publish/` nor `v2/publish/` occurs in it. |
| `Target.NormalizeTargetUnchanged` | src/main.rs:105-110 | Outside a container, the enqueued target equals the path if and only if no route segment occurs. Inside a container, a path with no route segment and no `localhost` is also enqueued unchanged. |
| `Target.ContainerRewriteOnlyOnLocalHost` | src/main.rs:108-110 | The container flag changes the target if and only if the stripped path contains `localhost`. The rewrite never shortens the target. |
| `Target.StripsInnerSegment` | src/main.rs:105-106 | For any before and after that contain no `v`, the path before + `v1/publish/` + after is enqueued outside a container as before + after. Removal is not limited to the front of the path. |
| `Target.V1PassJoinsV2Segment` | src/main.rs:105 | In `v2/` + `v1/publish/` + `publish/` + rest, where rest has no `v`, the v1 pass leaves `v2/publish/` + rest. |
| `Target.V2PassFindsNothing` | src/main.rs:106 | On that same path, again for rest without `v`, the v2 pass alone removes nothing. |
| `Target.V1PassRunsFirst` | src/main.rs:105-106 | For rest without `v`: with the v1 pass first, that path is stripped to rest. The opposite order leaves `v2/publish/` + rest. |
| `Target.StripAssemblesLocalHost` | src/main.rs:105-106 | For rest without `v`, stripping `loc` + `v1/publish/` + `alhost` + rest gives `localhost` + rest. |
| `Target.NoLocalHostBeforeStrip` | src/main.rs:105-109 | For rest without `c`, that path contains no `localhost` before stripping. |
| `Target.HostRewriteAfterStrip` | src/main.rs:105-110 | For rest with neither `v` nor `c`, inside a container `loc` + `v1/publish/` + `alhost` + rest is enqueued as `host.docker.internal` + rest: the `localhost` that stripping assembles is rewritten. Rewriting before stripping would leave `localhost` + rest. |
| `Target.StripIsSinglePass` | src/main.rs:105-106 | Stripping is one scan. The path `v1/p` + `v1/publish/` + `ublish/` strips to `v1/publish/`. |
| `Target.HostRewriteIsSinglePass` | src/main.rs:108-110 | The rewrite is one scan. For rest with neither `v` nor `c`, `local` + `localhost` + rest becomes `local` + `host.docker.internal` + rest, which still contains `localhost`. |
| `Http.UuidIsPlainJsonText` | src/main.rs:117 | The hyphenated text of a v4 UUID contains no character that JSON must escape. |
| `Http.MessageJson` | src/main.rs:122-126 | The acknowledgement serialises as `{"messageId":"<id>"}`: reading it back, under the field name `messageId`, gives the same identifier. |
| `Http.ParseMessageJsonExact` | src/main.rs:122-126 | Any text that reads as an acknowledgement is exactly that acknowledgement's serialisation. |
| `Http.PublishReply` | src/main.rs:114-119 | The reply has status 201, and its body reads back as a `messageId` carrying the generated identifier. |
| `Http.HandleError` | src/main.rs:69-77 | Status 408 if and only if the error is a timeout, with an empty body. Status 500 if and only if it is any other error, with body `Unhandled internal error: ` followed by that error's text. |
| `Http.NotFound` | src/main.rs:128-130 | Unmatched routes get 404 with a non-empty body. |
| `Dispatch.Taken` | src/main.rs:45-59 | The worker takes no more jobs than are pending or replies are available. Every POST but the last it made got a response. It stops early only right after a failed POST. |
| `Dispatch.TakenStopsAtFirstError` | src/main.rs:51-56 | If the first failed POST answers job k, exactly k + 1 jobs are taken, however many wait behind it. |
| `Dispatch.TakenAllWithoutError` | src/main.rs:45-58 | If every POST gets a response, whatever its status, every pending job is taken. |
| `Dispatch.Relay.constructor` | src/main.rs:40-44 | At start-up the channel is empty, the worker runs, and no history exists yet. |
| `Dispatch.Relay.Send` | src/main.rs:112 | Needs room below the capacity of 100. Succeeds exactly while the worker runs. On success exactly the job is appended at the back, and nothing else changes. |
| `Dispatch.Relay.Publish` | src/main.rs:99-120 | Enqueues the normalised target with the body verbatim, then replies 201 with the identifier. If the worker has died, it panics and enqueues nothing. |
| `Dispatch.Relay.DeliverNext` | src/main.rs:45-58 | Takes the oldest job, records one POST of exactly that job, and removes it from the channel. The worker survives any response status. A failed POST ends the worker and loses the buffered jobs. |
| `Dispatch.Relay.RunWorker` | src/main.rs:44-60 | POSTs exactly the first `Taken(queue, replies)` buffered jobs, in order, each once, with the replies' outcomes. The worker survives exactly when none of those outcomes is a failed POST. The rest stay queued, or are lost if a failed POST ended the worker. |

`Relay`'s invariant `Valid()` holds across all its methods:

- At most 100 jobs are buffered.
- The jobs sent equal, in order, the jobs POSTed, then the jobs lost, then the jobs still buffered.
- Only the last POST can have failed.
- The worker runs if and only if no POST has failed.

`PipelineScenario` is a client of these contracts. It sends three jobs and runs the worker against a 503 response, a failed POST and a 200. The first two jobs are POSTed in order. The third is lost, and the next publish panics.

## Left out

- The tokio runtime, `tokio::spawn`, and the concurrency between many handlers and the worker are not modelled. The pipeline is modelled as a sequence of operations on one `Relay`.
- The one-second sleep before each delivery is wall-clock behaviour, so the model leaves it out.
- The outbound `reqwest` POST is network I/O. Its result is an `Outcome` parameter: a response with a status, or `PostFailed`. `PostFailed` stands for every error `send` returns: transport failures, and also a request that cannot be built because the target is not a valid URL.
- Axum routing, the `*url` capture, the fallback registration, the tracing layers and the TCP bind/serve are HTTP plumbing. The captured path is a parameter of `Publish`, and the replacements apply to whatever text that capture yields.
- The `IN_CONTAINER` and `PORT` environment variables are process configuration, and so is the default port 3033. The container flag is a constructor parameter.
- The one-second request timeout is wall-clock behaviour. Only the mapping from error kind to status is modelled.
- UUID generation is randomness. The identifier is a parameter, constrained to the text form of a v4 UUID.
- Logging with `tracing::info!` is not modelled.
- `Dispatch.Relay.Send`, `Dispatch.Relay.Publish`: the blocking wait of `send` on a full channel is replaced by a precondition that the channel has room.
- `Dispatch.Relay.RunWorker`: the real loop suspends on an empty channel and waits for more jobs. The model stops when the channel is empty or the supplied replies run out. The model requires a running worker, because the loop exists only while the worker task runs.
- `Http.MessageJson` writes only identifiers that need no JSON escaping. UUID text always qualifies (`Http.UuidIsPlainJsonText`), so serde's escaping is not modelled.
- `Http.HandleError` does not model how a boxed error is displayed. Its display text is a parameter of the `Other` error.
- A panicking handler is `Panicked`. What the server then does with the connection is not modelled.
- A hardened design would keep the worker alive after a failed delivery, and would answer a failed send with a 503-class error. The code does neither, so neither does the model.
