/**
 * The daemon's stock envelopes (src/daemon/response_err.rs): an internal
 * error reply and the closing acknowledgement. `version` is the daemon's
 * own package version, which the build stamps in.
 */
module Responses {
  import opened Wrappers
  import opened Text
  import opened Warn
  import opened Protocol
  import opened Framing

  /** `internal_error`: an `ErrorResponse` carrying `err` as its error
      message under the fixed payload `{"error": "Internal Server Error"}`. */
  function InternalErrorMessage(version: string, err: string): (m: Message)
    ensures m.version == version
    ensures m.msgType == ErrorResponse
    ensures m.error == Some(DusaError(ErrorCode.InternalError, err))
    ensures m.payload == Entry("error", "Internal Server Error")
    ensures WellFormed(m)
  {
    Message(version, ErrorResponse, Entry("error", "Internal Server Error"),
            Some(DusaError(ErrorCode.InternalError, err)))
  }

  /** The acknowledgement envelope: empty payload, no error. */
  function AckMessage(version: string): (m: Message)
    ensures m.version == version
    ensures m.msgType == MessageType.Acknowledge && m.payload == Empty && m.error.None?
    ensures WellFormed(m)
  {
    Message(version, MessageType.Acknowledge, Empty, None)
  }

  /** The error text never reaches the payload: two internal errors differ
      only in their error message. */
  lemma InternalErrorHidesDetail(version: string, a: string, b: string)
    ensures InternalErrorMessage(version, a).payload == InternalErrorMessage(version, b).payload
    ensures InternalErrorMessage(version, a) == InternalErrorMessage(version, b) <==> a == b
  {
  }

  /** `acknowledge`: sends one acknowledgement and returns exactly what
      `send_message` returns. */
  method Acknowledge(stream: Stream, serialize: Message -> Option<seq<byte>>, version: string, errors: seq<ErrorItem>)
    returns (r: Result<(), seq<ErrorItem>>)
    modifies stream
    ensures serialize(AckMessage(version)).None? ==>
      r == Err(errors + [JsonFailure])
      && stream.outgoing == old(stream.outgoing) && stream.writable == old(stream.writable)
    ensures serialize(AckMessage(version)).Some? ==>
      var f := Frame(serialize(AckMessage(version)).value);
      && stream.outgoing == old(stream.outgoing) + f[..Min(|f|, old(stream.writable))]
      && (r.Ok? <==> |f| <= old(stream.writable))
      && (r.Err? ==> r.error == errors + [IoFailure(BrokenPipe)])
    ensures stream.incoming == old(stream.incoming)
  {
    var ack := AckMessage(version);
    r := SendMessage(stream, ack, serialize, errors);
  }
}
