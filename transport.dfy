/** The Lambda response stream `res` (a Node `Writable`), the streaming
    metadata envelope it is initialised with, and the abort controller a
    request's signal comes from. */
module Transport {
  import opened Strings

  /** `{statusCode, headers, cookies}` as handed to `HttpResponseStream.from`. */
  datatype ResponseMetadata = ResponseMetadata(
    statusCode: int,
    headers: seq<(string, string)>,
    cookies: seq<string>)

  /** What reaches the transport, in order. */
  datatype StreamEvent =
    | Metadata(metadata: ResponseMetadata)   // the prelude written by `HttpResponseStream.from`
    | Chunk(bytes: seq<byte>)                // one `write`
    | Ended                                  // `end()`
    | Destroyed                              // `destroy(error)`

  predicate Terminal(e: StreamEvent) {
    e.Ended? || e.Destroyed?
  }

  /** The log of one invocation: the metadata first and only once, then body
      chunks, then exactly one terminal event, last. */
  predicate WellFormedLog(log: seq<StreamEvent>) {
    && |log| >= 2
    && log[0].Metadata?
    && (forall i :: 0 < i < |log| - 1 ==> log[i].Chunk?)
    && Terminal(log[|log| - 1])
  }

  /** The body bytes a log carries, in order. */
  function BytesWritten(log: seq<StreamEvent>): seq<byte>
  {
    if log == [] then []
    else BytesWritten(log[..|log| - 1]) + (if log[|log| - 1].Chunk? then log[|log| - 1].bytes else [])
  }

  /** `AbortController`: a one-shot flag; `abort` dispatches the abort event
      only on the first call. */
  class AbortController {
    var aborted: bool
    var abortEvents: nat   // number of `abort` events dispatched on the signal

    ghost predicate Valid()
      reads this
    {
      abortEvents == if aborted then 1 else 0
    }

    constructor ()
      ensures Valid() && !aborted
    {
      aborted := false;
      abortEvents := 0;
    }

    method Abort()
      requires Valid()
      modifies this
      ensures Valid() && aborted
      ensures old(aborted) ==> abortEvents == old(abortEvents)
    {
      if !aborted {
        aborted := true;
        abortEvents := abortEvents + 1;
      }
    }
  }

  /** The response stream `res`. The wrapper that `HttpResponseStream.from`
      returns writes into the same stream, so one log records both. */
  class ResponseStream {
    var log: seq<StreamEvent>
    var closeListeners: seq<AbortController>

    /** Metadata has been committed and no terminal event has happened. */
    predicate Open()
      reads this
    {
      |log| > 0 && log[0].Metadata? && forall i :: 0 <= i < |log| ==> !Terminal(log[i])
    }

    constructor ()
      ensures log == [] && closeListeners == []
    {
      log := [];
      closeListeners := [];
    }

    /** `res.on("close", () => controller.abort())`. */
    method OnClose(controller: AbortController)
      modifies this
      ensures log == old(log)
      ensures closeListeners == old(closeListeners) + [controller]
    {
      closeListeners := closeListeners + [controller];
    }

    /** The stream emits "close": every registered controller is aborted; a
        controller already aborted dispatches nothing again. */
    method EmitClose()
      requires forall i :: 0 <= i < |closeListeners| ==> closeListeners[i].Valid()
      modifies closeListeners
      ensures forall i :: 0 <= i < |closeListeners| ==>
        closeListeners[i].Valid() && closeListeners[i].aborted && closeListeners[i].abortEvents == 1
    {
      var listeners := closeListeners;
      for k := 0 to |listeners|
        invariant listeners == closeListeners
        invariant forall i :: 0 <= i < |listeners| ==> listeners[i].Valid()
        invariant forall i :: 0 <= i < k ==> listeners[i].aborted
      {
        listeners[k].Abort();
      }
    }

    /** `awslambda.HttpResponseStream.from(res, metadata)`: the prelude goes
        out first, once. */
    method From(metadata: ResponseMetadata)
      requires log == []
      modifies this
      ensures log == [Metadata(metadata)] && closeListeners == old(closeListeners)
      ensures Open()
    {
      log := [Metadata(metadata)];
    }

    method Write(bytes: seq<byte>)
      requires Open()
      modifies this
      ensures log == old(log) + [Chunk(bytes)] && closeListeners == old(closeListeners)
      ensures Open()
    {
      log := log + [Chunk(bytes)];
    }

    method End()
      requires Open()
      modifies this
      ensures log == old(log) + [Ended] && closeListeners == old(closeListeners)
    {
      log := log + [Ended];
    }

    method Destroy()
      requires Open()
      modifies this
      ensures log == old(log) + [Destroyed] && closeListeners == old(closeListeners)
    {
      log := log + [Destroyed];
    }
  }
}
