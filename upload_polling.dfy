/** The status polling at the end of `upload_to_gemini_internal`: after the
    bytes are uploaded, the file's status is requested until the server
    reports it ACTIVE (its URI is the result), reports a failure, or too
    many attempts have been made. The replies the server gives are an
    input: `replies(k)` is the reply to the (k+1)-th status request. */
module UploadPolling {
  import opened Wrappers

  /** The most attempts the loop waits through; the attempt after them that
      still finds the file processing gives up. */
  const MaxRetries: nat := 60

  /** One reply to a status request: the request could not be sent or its
      body not read, the server answered with an error status, the body
      was not a file status, or a file status with its optional `state`
      and `uri` fields. */
  datatype StatusReply =
    | SendFailed(error: string)
    | ErrorStatus(errorText: string)
    | Unparsable(error: string)
    | FileStatus(state: Option<string>, uri: Option<string>)

  /** What one attempt decides: the upload finishes with a result, or the
      loop waits and asks again. */
  datatype PollStep = Finished(result: Result<string>) | KeepPolling

  /** The reply says the file is still being processed: its state is
      PROCESSING, or it has no state at all. */
  predicate Pending(reply: StatusReply)
  {
    reply.FileStatus? && (reply.state.None? || reply.state == Some("PROCESSING"))
  }

  /** The decision of attempt number `retryCount` (counting from 1) on its
      reply: polling goes on exactly for a pending reply within the retry
      budget, and it succeeds exactly on an ACTIVE status that carries a
      URI, whose URI is the result. */
  function Decide(reply: StatusReply, retryCount: nat): (d: PollStep)
    ensures d.KeepPolling? <==> Pending(reply) && retryCount <= MaxRetries
    ensures d.Finished? && d.result.Ok? <==> reply.FileStatus? && reply.state == Some("ACTIVE") && reply.uri.Some?
    ensures d.Finished? && d.result.Ok? ==> d.result.value == reply.uri.value
  {
    match reply
    case SendFailed(e) => Finished(Err(e))
    case ErrorStatus(text) => Finished(Err("Failed to get file status: " + text))
    case Unparsable(e) => Finished(Err("Failed to parse file status response: " + e))
    case FileStatus(state, uri) =>
      if state.None? then
        if retryCount > MaxRetries then Finished(Err("File processing timeout (no state).")) else KeepPolling
      else if state.value == "ACTIVE" then
        if uri.Some? then Finished(Ok(uri.value)) else Finished(Err("File is ACTIVE but URI is missing."))
      else if state.value == "PROCESSING" then
        if retryCount > MaxRetries then Finished(Err("File processing timeout.")) else KeepPolling
      else if state.value == "FAILED" then Finished(Err("File processing failed on the server."))
      else Finished(Err("Unknown file state received: " + state.value))
  }

  /** The result of polling after `done` attempts have asked to keep
      polling, and the total number of status requests made. */
  function Poll(replies: nat -> StatusReply, done: nat): (p: (Result<string>, nat))
    requires done <= MaxRetries
    ensures done < p.1 <= MaxRetries + 1
    decreases MaxRetries - done
  {
    match Decide(replies(done), done + 1)
    case Finished(result) => (result, done + 1)
    case KeepPolling => Poll(replies, done + 1)
  }

  /** The polling loop, counting its status requests. */
  method PollFileStatus(replies: nat -> StatusReply) returns (r: Result<string>, requests: nat)
    ensures (r, requests) == Poll(replies, 0)
  {
    var retryCount: nat := 0;
    var step := KeepPolling;
    while step.KeepPolling?
      invariant retryCount <= MaxRetries + 1
      invariant step.KeepPolling? ==> retryCount <= MaxRetries && Poll(replies, 0) == Poll(replies, retryCount)
      invariant step.Finished? ==> (step.result, retryCount) == Poll(replies, 0)
      decreases MaxRetries + 1 - retryCount, if step.KeepPolling? then 1 else 0
    {
      step := Decide(replies(retryCount), retryCount + 1);
      retryCount := retryCount + 1;
    }
    r, requests := step.result, retryCount;
  }

  /** Polling makes between 1 and 61 status requests; every reply before
      the last was pending and the last one decided the result. */
  lemma {:induction false} PollShape(replies: nat -> StatusReply, done: nat)
    requires done <= MaxRetries
    ensures var (r, requests) := Poll(replies, done);
      done < requests <= MaxRetries + 1 &&
      (forall k :: done <= k < requests - 1 ==> Pending(replies(k))) &&
      Decide(replies(requests - 1), requests) == Finished(r)
    decreases MaxRetries - done
  {
    if Decide(replies(done), done + 1).KeepPolling? {
      PollShape(replies, done + 1);
    }
  }

  /** Polling yields a URI exactly when the last reply it read is an ACTIVE
      status with that URI and every reply before it was pending. */
  lemma PollSucceedsIff(replies: nat -> StatusReply, uri: string)
    ensures var (r, requests) := Poll(replies, 0);
      r == Ok(uri) <==>
        replies(requests - 1) == FileStatus(Some("ACTIVE"), Some(uri)) &&
        forall k :: 0 <= k < requests - 1 ==> Pending(replies(k))
  {
    PollShape(replies, 0);
  }

  /** A file that stays PROCESSING times out after 61 requests. */
  lemma {:induction false} ProcessingTimesOut(replies: nat -> StatusReply, done: nat)
    requires done <= MaxRetries
    requires forall k :: replies(k).FileStatus? && replies(k).state == Some("PROCESSING")
    ensures Poll(replies, done) == (Err("File processing timeout."), MaxRetries + 1)
    decreases MaxRetries - done
  {
    if done < MaxRetries {
      ProcessingTimesOut(replies, done + 1);
    }
  }

  /** Replies without a state time out the same way, with their own
      message. */
  lemma {:induction false} NoStateTimesOut(replies: nat -> StatusReply, done: nat)
    requires done <= MaxRetries
    requires forall k :: replies(k).FileStatus? && replies(k).state.None?
    ensures Poll(replies, done) == (Err("File processing timeout (no state)."), MaxRetries + 1)
    decreases MaxRetries - done
  {
    if done < MaxRetries {
      NoStateTimesOut(replies, done + 1);
    }
  }

  /** The first reply that is not pending decides, within the budget: a
      FAILED state, an unknown state, an ACTIVE state without URI or a
      failed request ends polling with an error right there. */
  lemma {:induction false} FirstDecidingReply(replies: nat -> StatusReply, done: nat, j: nat)
    requires done <= j <= MaxRetries
    requires forall k :: done <= k < j ==> Pending(replies(k))
    requires !Pending(replies(j))
    ensures Poll(replies, done) == (Decide(replies(j), j + 1).result, j + 1)
    decreases j - done
  {
    if done < j {
      FirstDecidingReply(replies, done + 1, j);
    }
  }
}
