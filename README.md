# NoFakePNG admission and validation pipeline, in Dafny

This project models the part of the NoFakePNG API (`main.py`) that stands in
front of the background-removal call of `POST /remove-background`:

- the per-client sliding-window rate limiter (`RateLimiter`, one list of
  request timestamps per client IP, at most `requests_per_minute` admitted
  requests in the trailing minute, with a retry hint in whole seconds);
- the bounded chunked read of the upload (1 MiB chunks, abort once the
  running total exceeds 10 MiB);
- the content-type check, the image decode, the 4000-pixel dimension check,
  and how each failure becomes an HTTP status.

Modules:

- `RateLimiting` (`rate_limiter.dfy`): the class `RateLimiter`, with a
  `map<string, seq<int>>` of histories that `IsRateLimited` updates in place.
  `ClientStep` is the pure model of one call on one client's list, and
  `Replay` / `AdmittedTimes` model a sequence of calls from one client. Time
  is an integer count of microseconds, the resolution of Python's `datetime`,
  and it is passed in as a parameter.
- `UploadReader` (`upload_reader.dfy`): `ReadUpload` is the `while True`
  loop. It is proved equal to `BoundedRead`, a definition over the whole
  upload: the chunks before the first empty one, their concatenation, and the
  first prefix whose length exceeds the limit.
- `RequestPipeline` (`request_pipeline.dfy`): `TryBlock` gives the exception
  that leaves the outer `try`. `RemoveBackground` gives the final status.
  `Respond` adds the rate-limit dependency that runs before the handler.
  `Serve` composes the limiter object with them.
- `Wrappers` (`wrappers.dfy`): `Option`.

The model follows the code. Where the code's behaviour differs from what the
route declares, the model keeps the code's behaviour:

- The route's declared responses (main.py:76-105) list 413 for an oversize
  file and 400 for an invalid image. But the 413 raised at line 142 and the
  400s raised at lines 156 and 164 are all inside the `try` that begins at
  line 126. That `try`'s `except Exception` (line 176) turns them into 500.
  Only the content-type 400 (lines 117-121) reaches the client as a 400
  (`RemoveBackground`, `ClientErrorsBecome500`).
- The retry hint is the remaining time rounded down (`int()`, line 43). A
  client that waits exactly the hint can be rejected again
  (`WaitingExactlyTheHintCanBeTooShort`). Waiting one second more than the
  hint always gets it in (`HintPlusOneSecondSuffices`).
- If `requests_per_minute` is 0 or negative, a client with an empty pruned
  list reaches `[0]` on an empty list at line 41, which raises `IndexError`.
  The model keeps this as the verdict `IndexError`. The program itself only
  builds the limiter with 10 (line 50), so `IndexError` cannot occur there
  (`ClientStepCases`).

Time arithmetic: `(now - oldest).total_seconds()` divides a whole number of
microseconds by 10^6. So `60 - x` is never closer than 10^-6 to an integer
unless it is one. While `|now - oldest|` stays below about 2^33 seconds, the
float rounding error is far below 10^-6, so it cannot move `int()` across an
integer, and `TruncSeconds` models it exactly in integers. Larger differences
arise only from clock jumps of centuries, which the model does not cover.

## Model

| member | source | states |
|---|---|---|
| `RateLimiting.TruncSeconds` | main.py:42-43 | `int()` of a duration in seconds truncates toward zero: for non-negative durations the result is the largest whole number of seconds not above it, for negative ones the smallest not below it |
| `RateLimiting.Prune` | main.py:33-36 | the kept list is no longer than the old one and holds exactly the old entries strictly later than the cutoff (an entry exactly one minute old is dropped) |
| `RateLimiting.PruneAppend` | main.py:33-36 | pruning distributes over concatenation, so the kept entries stay in their original order |
| `RateLimiting.PruneSortedIsSuffix` | main.py:33-36 | on a sorted list pruning removes exactly a prefix of stale entries (all at or before the cutoff), and the result is sorted |
| `RateLimiting.PruneTwice` | main.py:33-36 | pruning at one cutoff and then another equals pruning once at the later of the two |
| `RateLimiting.PruneShrinks` | main.py:33-36 | a later cutoff keeps no more entries |
| `RateLimiting.WaitSeconds` | main.py:41-43 | the hint is at least 1; at most 60 when the oldest entry is not in the future; one second more than the hint always reaches the moment the oldest entry leaves the window; the hint never overstates the remaining time when at least a second remains, and it is exactly 1 when less than that remains |
| `RateLimiting.WaitSecondsDetermined` | main.py:41-43 | the contract of `WaitSeconds` leaves exactly one possible hint: any value meeting it is `max(1, int(60 - age))` |
| `RateLimiting.ClientStep` | main.py:29-47 | one call of `is_rate_limited` on the calling client's list, giving the new list and the verdict; its cases are stated by `ClientStepCases` |
| `RateLimiting.ClientStepCases` | main.py:29-47 | a call is admitted iff the pruned list has fewer than `requests_per_minute` entries; when admitted the stored list is the pruned list plus `now`, otherwise it is the pruned list; IndexError happens iff the pruned list is empty and the limit is not positive; otherwise the hint is computed from the first remaining entry |
| `RateLimiting.LimitedHintBounds` | main.py:39-43 | when no stored timestamp is later than `now`, a rejection's hint lies between 1 and 60 seconds |
| `RateLimiting.ClientStepKeepsWellFormed` | main.py:33-46 | a call at a time no earlier than every stored entry keeps the list sorted, keeps every entry at or before `now`, and keeps it at most `requests_per_minute` long |
| `RateLimiting.HintPlusOneSecondSuffices` | main.py:39-47 | after a rejection with hint `w` on a well-formed list, a call `w + 1` seconds later or more is admitted |
| `RateLimiting.WaitingExactlyTheHintCanBeTooShort` | main.py:41-43 | with limit 1 and a request at 0 s, a call at 58.5 s is told to wait 1 s, and a call 1 s later is still rejected |
| `RateLimiting.ReplayCount` | main.py:29-47 | after any sequence of calls, the stored list holds no more entries after a cutoff than there were calls after it |
| `RateLimiting.FewRecentCallsAdmitted` | main.py:29-47 | a call is admitted whenever fewer than `requests_per_minute` earlier calls lie within the minute before it, whatever the order of the times |
| `RateLimiting.HistoryIsAdmittedCallsInWindow` | main.py:29-47 | with a non-decreasing clock the stored list equals the admitted calls' timestamps still within the minute before the latest call |
| `RateLimiting.DecisionIsSlidingWindow` | main.py:29-47 | with a non-decreasing clock a call is admitted iff fewer than `requests_per_minute` earlier admitted calls lie strictly within the minute before it |
| `RateLimiting.ReplayWellFormed` | main.py:33-46 | with a non-decreasing clock, after any sequence of calls the stored list is sorted, no later than the latest call and bounded by the limit |
| `RateLimiting.AtMostLimitAdmittedPerWindow` | main.py:29-47 | with a non-decreasing clock, the minute ending at any call holds at most `requests_per_minute` admitted calls (none when the limit is not positive) |
| `RateLimiting.ShortRunsAllAdmitted` | main.py:39-47 | the first `requests_per_minute` calls from a client are all admitted |
| `RateLimiting.BurstThenLimited` | main.py:39-47 | `requests_per_minute` calls within one minute are all admitted, and the next call inside that minute is rejected with a hint of at least 1 second |
| `RateLimiting.RateLimiter.constructor` | main.py:20-22 | the limiter starts with the given limit and no client histories |
| `RateLimiting.RateLimiter.IsRateLimited` | main.py:24-47 | the caller's list (created empty for a new IP) becomes the one-call result of `ClientStep`, the verdict is that call's verdict, every other client's list is unchanged, and a non-decreasing clock keeps every list well formed |
| `UploadReader.EndOfStream` | main.py:133-136 | the loop's stopping point: every chunk before it is non-empty, and the chunk at it is empty or past the end |
| `UploadReader.FirstOverflow` | main.py:137-145 | the number of chunks after which the running total first exceeds 10 MiB: the total after it is over the limit, the total one chunk earlier is not |
| `UploadReader.OverflowIsFirst` | main.py:141-145 | that chunk count is unique: a prefix over the limit whose one-shorter prefix is within it is the first overflow |
| `UploadReader.BoundedReadSpec` | main.py:124-145 | the read succeeds iff the upload (the chunks before the first empty one) holds at most 10 MiB, and then returns their concatenation; on abort it has read only up to the first chunk that takes the total over the limit, holds exactly those chunks joined, and holds more than 10 MiB but at most that last chunk more |
| `UploadReader.AbortedReadBound` | main.py:132-145 | when no read returns more than 1 MiB, an aborted read holds at most 10 MiB + 1 MiB |
| `UploadReader.ReadUpload` | main.py:128-145 | the loop, with `file_size == len(contents)` at every step, returns exactly `BoundedRead` of the chunks |
| `RequestPipeline.AcceptedType` | main.py:115-117 | the content-type test: true exactly when a content type is present and is one of the five listed strings, compared exactly |
| `RequestPipeline.TooLargeDimensions` | main.py:153-155 | the dimension test: true exactly when the width or the height is over 4000 pixels |
| `RequestPipeline.TryBlock` | main.py:126-175 | the outer try block: the exception that leaves it, or none when it returns the PNG; what it raises for which upload is stated by `TryBlockRaises` |
| `RequestPipeline.TryBlockRaises` | main.py:126-175 | the try block raises 413 iff the upload exceeds 10 MiB; 400 iff it fits but fails to decode or is wider or taller than 4000 pixels; some other exception iff it passes every check and the transform fails; otherwise it returns the PNG |
| `RequestPipeline.RemoveBackground` | main.py:115-177 | the handler's status is 200, 400 or 500, and it is 400 exactly when the content type is missing or not one of the five listed types |
| `RequestPipeline.ContentTypeCheckedFirst` | main.py:115-121 | a rejected content type gives 400 regardless of the upload's bytes, the decoder and the transform |
| `RequestPipeline.ClientErrorsBecome500` | main.py:126-177 | with an accepted content type, an oversize upload, an undecodable one and one over 4000 pixels in either dimension all end in 500 |
| `RequestPipeline.SucceedsIffAllChecksPass` | main.py:115-177 | the handler returns 200 iff the content type is accepted, the upload fits in 10 MiB, decodes, is within 4000 x 4000 pixels, and the transform succeeds |
| `RequestPipeline.Respond` | main.py:53-61 | the response is 429 iff the limiter rejected the call, and only then does it carry a retry hint |
| `RequestPipeline.ThrottledBeforeUpload` | main.py:53-61 | a rejected request is answered 429 with the limiter's hint, whatever its upload, decoder and transform |
| `RequestPipeline.Serve` | main.py:106 | one request runs the limiter first, updating its state as `IsRateLimited` does, and answers with `Respond` of the verdict |

## Left out

- App construction, CORS middleware, the `/` route, the `responses` metadata and `uvicorn.run` are framework wiring.
- Multipart parsing happens in the framework before the handler runs, and a missing `file` field is rejected there. By the time the loop runs, the framework has already spooled the whole body. The model bounds only the handler's own `contents` buffer.
- PIL decoding (`Image.open`, `.mode`, `.size`) is foreign code. It is the `decode` parameter, which maps the buffered bytes to optional dimensions.
- `rembg.remove` and the PNG `save` are foreign code. They are one boolean parameter, `transformSucceeds`, and the PNG bytes are not modelled.
- `datetime.now()` is the `now` parameter, an integer count of microseconds. The model does not cover clock adjustments. The ordering and bound results assume a non-decreasing clock, and `IsRateLimited` states that assumption explicitly.
- The `detail` texts are not modelled, including the `str(e)` of a wrapped exception. Only the status codes and the 429 retry hint are.
- An `IndexError` escaping the dependency is modelled as 500. That status comes from the framework's default handling of unhandled exceptions, which is not part of this model.
- An exception raised by `await file.read(chunk_size)` itself (line 134) is not modelled: the chunk source cannot fail. Such an exception is inside the outer `try`, so it would also end in 500.
- A connection without client information (`request.client` being `None`, line 54) is not modelled. It raises before the limiter is called.
- Concurrency is not modelled: the shared global `rate_limiter`, and async interleaving between requests. Each call of `IsRateLimited` is modelled as atomic. The source has no lock, but it also has no `await` inside `is_rate_limited`.
- `RateLimiting.Replay` and `RateLimiting.AdmittedTimes` cover one client's calls only. Calls from other clients leave that client's list unchanged (`IsRateLimited`), so each client's list evolves as `Replay` of its own calls. That composition is stated, not proved.
