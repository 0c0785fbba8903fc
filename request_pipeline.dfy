/**
 * The validation steps of remove_background (main.py) and the HTTP status
 * each request ends with, including the rate-limit dependency that runs
 * before the handler.
 *
 * The image decoder (PIL) is a parameter that maps the buffered bytes to the
 * image's dimensions, or to None when opening the image raises; the
 * background removal and PNG encoding are a single parameter saying whether
 * they succeed.
 */
module RequestPipeline {

  import opened Wrappers
  import opened UploadReader
  import opened RateLimiting

  /** valid_image_types. */
  const ValidImageTypes: seq<string> := ["image/jpeg", "image/png", "image/jpg", "image/webp", "image/bmp"]

  /** MAX_DIMENSION, in pixels. */
  const MaxDimension: int := 4000

  datatype Dimensions = Dimensions(width: int, height: int)

  /** The declared content type is in the list; a missing one is not. */
  predicate AcceptedType(contentType: Option<string>)
  {
    contentType.Some? && contentType.value in ValidImageTypes
  }

  predicate TooLargeDimensions(d: Dimensions)
  {
    d.width > MaxDimension || d.height > MaxDimension
  }

  /** An exception leaving the outer try block: an HTTPException with its status, or any other exception. */
  datatype Raised = HttpError(status: int) | OtherError

  /**
   * The outer try block, lines 126-175: None when it returns the PNG response,
   * otherwise the exception it raises. Inside it, an image that fails to open is
   * turned into a 400 by the inner handler, and the dimension 400 passes
   * through that handler unchanged.
   */
  function TryBlock(chunks: seq<seq<byte>>, decode: seq<byte> -> Option<Dimensions>, transformSucceeds: bool): Option<Raised>
  {
    match BoundedRead(chunks)
    case PayloadTooLarge(_, _) => Some(HttpError(413))
    case Complete(contents) =>
      match decode(contents)
      case None => Some(HttpError(400))
      case Some(d) =>
        if TooLargeDimensions(d) then Some(HttpError(400))
        else if transformSucceeds then None
        else Some(OtherError)
  }

  /**
   * The status remove_background ends with. The content-type 400 is raised
   * before the try block and escapes as it is; every exception from inside the
   * try block, HTTPException included, is caught by `except Exception` and
   * re-raised as 500. So the status is 200, 400 or 500, and it is 400 exactly
   * when the content type is rejected.
   */
  function RemoveBackground(contentType: Option<string>, chunks: seq<seq<byte>>,
                            decode: seq<byte> -> Option<Dimensions>, transformSucceeds: bool): (status: int)
    ensures status == 200 || status == 400 || status == 500
    ensures status == 400 <==> !AcceptedType(contentType)
  {
    if !AcceptedType(contentType) then 400
    else if TryBlock(chunks, decode, transformSucceeds).None? then 200
    else 500
  }

  /** What the try block raises, stated in terms of the upload. */
  lemma TryBlockRaises(chunks: seq<seq<byte>>, decode: seq<byte> -> Option<Dimensions>, transformSucceeds: bool)
    ensures var raised := TryBlock(chunks, decode, transformSucceeds);
            var upload := Concat(Stream(chunks));
            && (raised == Some(HttpError(413)) <==> |upload| > MaxFileSize)
            && (raised == Some(HttpError(400)) <==>
                  |upload| <= MaxFileSize && (decode(upload).None? || TooLargeDimensions(decode(upload).value)))
            && (raised == Some(OtherError) <==>
                  |upload| <= MaxFileSize && decode(upload).Some? && !TooLargeDimensions(decode(upload).value)
                  && !transformSucceeds)
  {
  }

  /** A rejected content type decides the status before any byte of the upload is looked at. */
  lemma ContentTypeCheckedFirst(contentType: Option<string>,
                                chunks1: seq<seq<byte>>, decode1: seq<byte> -> Option<Dimensions>, transform1: bool,
                                chunks2: seq<seq<byte>>, decode2: seq<byte> -> Option<Dimensions>, transform2: bool)
    requires !AcceptedType(contentType)
    ensures RemoveBackground(contentType, chunks1, decode1, transform1) == 400
    ensures RemoveBackground(contentType, chunks1, decode1, transform1)
            == RemoveBackground(contentType, chunks2, decode2, transform2)
  {
  }

  /**
   * With an accepted content type, an oversize upload, an undecodable one and
   * one wider or taller than 4000 pixels all end in 500, not in the 413 or
   * 400 the handler raises for them.
   */
  lemma ClientErrorsBecome500(contentType: Option<string>, chunks: seq<seq<byte>>,
                              decode: seq<byte> -> Option<Dimensions>, transformSucceeds: bool)
    requires AcceptedType(contentType)
    ensures var status := RemoveBackground(contentType, chunks, decode, transformSucceeds);
            var upload := Concat(Stream(chunks));
            && (|upload| > MaxFileSize ==> status == 500)
            && (decode(upload).None? ==> status == 500)
            && (decode(upload).Some? && TooLargeDimensions(decode(upload).value) ==> status == 500)
  {
  }

  /** A request succeeds exactly when every check passes and the transform succeeds. */
  lemma SucceedsIffAllChecksPass(contentType: Option<string>, chunks: seq<seq<byte>>,
                                 decode: seq<byte> -> Option<Dimensions>, transformSucceeds: bool)
    ensures var upload := Concat(Stream(chunks));
            RemoveBackground(contentType, chunks, decode, transformSucceeds) == 200
            <==> && AcceptedType(contentType)
                 && |upload| <= MaxFileSize
                 && decode(upload).Some?
                 && !TooLargeDimensions(decode(upload).value)
                 && transformSucceeds
  {
  }

  /** The response: its status and, for a 429, the retry hint carried in its detail. */
  datatype Reply = Reply(status: int, retryAfter: Option<int>)

  /**
   * check_rate_limit runs as a dependency before the handler: a limited client
   * gets 429 with the hint, an IndexError inside it is an unhandled exception
   * (500), and an admitted request goes on to remove_background.
   */
  function Respond(verdict: Verdict, contentType: Option<string>, chunks: seq<seq<byte>>,
                   decode: seq<byte> -> Option<Dimensions>, transformSucceeds: bool): (reply: Reply)
    ensures reply.status == 429 <==> verdict.Limited?
    ensures reply.retryAfter.Some? <==> verdict.Limited?
  {
    match verdict
    case Limited(w) => Reply(429, Some(w))
    case IndexError => Reply(500, None)
    case Admitted => Reply(RemoveBackground(contentType, chunks, decode, transformSucceeds), None)
  }

  /** A throttled request is answered without the upload being read, with the limiter's hint. */
  lemma ThrottledBeforeUpload(w: int,
                              contentType1: Option<string>, chunks1: seq<seq<byte>>,
                              decode1: seq<byte> -> Option<Dimensions>, transform1: bool,
                              contentType2: Option<string>, chunks2: seq<seq<byte>>,
                              decode2: seq<byte> -> Option<Dimensions>, transform2: bool)
    ensures Respond(Limited(w), contentType1, chunks1, decode1, transform1) == Reply(429, Some(w))
    ensures Respond(Limited(w), contentType1, chunks1, decode1, transform1)
            == Respond(Limited(w), contentType2, chunks2, decode2, transform2)
  {
  }

  /** One request to POST /remove-background from `clientIp` at time `now`. */
  method Serve(limiter: RateLimiter, clientIp: string, now: int, contentType: Option<string>,
               chunks: seq<seq<byte>>, decode: seq<byte> -> Option<Dimensions>, transformSucceeds: bool)
    returns (reply: Reply)
    modifies limiter
    ensures var step := ClientStep(HistoryOf(old(limiter.history), clientIp), limiter.requestsPerMinute, now);
            && limiter.history == old(limiter.history)[clientIp := step.history]
            && reply == Respond(step.verdict, contentType, chunks, decode, transformSucceeds)
    ensures old(limiter.Ordered(now)) ==> limiter.Ordered(now)
  {
    var verdict := limiter.IsRateLimited(clientIp, now);
    reply := Respond(verdict, contentType, chunks, decode, transformSucceeds);
  }
}
