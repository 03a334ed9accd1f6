/**
 * The daemon's per-connection handler (`handle_client` in
 * src/daemon/server.rs): receive one envelope, answer a version mismatch
 * with an error but carry on, route by message type, dispatch a request by
 * variant and command, reply, and close with an acknowledgement.
 *
 * The encrypted store is a record of functions giving each call's outcome;
 * `version` is the daemon's own package version.
 */
module Dispatcher {
  import opened Wrappers
  import opened Text
  import opened Protocol
  import opened Responses
  import opened Channel

  /** The outcome of a store call; the detail is only ever printed. */
  datatype StoreResult<T> = Done(value: T) | Failed(detail: string)

  /** Decrypted bytes, as `String::from_utf8` sees them. */
  datatype Plaintext = Utf8(text: string) | NotUtf8

  datatype Store = Store(
    store: (PathType, string, string) -> StoreResult<()>,
    /** `encrypt_raw(data)`: (key, cipher, chunks). */
    encryptRaw: string -> StoreResult<(string, string, usize)>,
    /** `decrypt_raw(cipher, key, chunks)`. */
    decryptRaw: (string, string, usize) -> StoreResult<Plaintext>,
    /** `retrieve(owner, name, uid)`: (temporary path, original path). */
    retrieve: (string, string, u32) -> StoreResult<(PathType, PathType)>,
    remove: (string, string) -> StoreResult<()>)

  /** What a request whose payload does not decode is taken to be. */
  const FallbackRequest: RequestPayload := RequestPayload.Simple(PingFile, "system", "test", 1000)

  function RequestOf(m: Message): (req: RequestPayload)
    ensures m.payload.RequestBody? ==> req == m.payload.request
    ensures !m.payload.RequestBody? ==> req == FallbackRequest
  {
    DecodeRequest(m.payload).GetOr(FallbackRequest)
  }

  function VersionMismatchText(version: string, incoming: string): string
  {
    "Client and Server out of date. Server version: " + version + ", Client version: " + incoming
  }

  /** What the version check sends before anything else: nothing, or one
      `InvalidVersion` error. */
  function VersionReplies(m: Message, version: string): (r: seq<Message>)
    ensures |r| <= 1
    ensures |r| == 1 <==> !CheckVersion(m.version, version)
    ensures |r| == 1 ==>
      && r[0].msgType == ErrorResponse && WellFormed(r[0])
      && r[0].error == Some(DusaError(InvalidVersion, VersionMismatchText(version, m.version)))
  {
    if CheckVersion(m.version, version) then []
    else [Message(version, ErrorResponse, Empty,
                  Some(DusaError(InvalidVersion, VersionMismatchText(version, m.version))))]
  }

  /** The raw-text reply format: cipher, key and chunk count joined by `-`. */
  function FormatRawText(cipher: string, key: string, chunks: usize): string
  {
    cipher + "-" + key + "-" + Decimal(chunks)
  }

  function PartOr(parts: seq<string>, i: nat, default: string): string
  {
    if i < |parts| then parts[i] else default
  }

  /** How `DecryptRawText` reads its data: split on `-`; the cipher and key
      default to "" and the chunk count to 1, when missing or unparsable. */
  function ParseRawText(data: string): (r: (string, string, usize))
    ensures '-' !in r.0 && '-' !in r.1
  {
    var parts := Split(data, '-');
    SplitPieces(data, '-');
    (PartOr(parts, 0, ""), PartOr(parts, 1, ""),
     ParseUnsigned(PartOr(parts, 2, "1"), UsizeBound).GetOr(1))
  }

  /** No piece of a split holds the delimiter. */
  lemma {:induction false} SplitPieces<T>(s: seq<T>, d: T)
    ensures forall i :: 0 <= i < |Split(s, d)| ==> d !in Split(s, d)[i]
  {
    if |s| > 0 {
      SplitPieces(s[1..], d);
      SplitCons(s[0], s[1..], d);
      assert s == [s[0]] + s[1..];
    }
  }

  /** The raw-text format parses back whenever neither the cipher nor the
      key holds a `-`. */
  lemma RawTextRoundTrip(cipher: string, key: string, chunks: usize)
    requires '-' !in cipher && '-' !in key
    ensures ParseRawText(FormatRawText(cipher, key, chunks)) == (cipher, key, chunks)
  {
    var parts := [cipher, key, Decimal(chunks)];
    assert '-' !in Decimal(chunks) by {
      assert AllDigits(Decimal(chunks));
    }
    assert Join(parts, '-') == FormatRawText(cipher, key, chunks) by {
      assert Join(parts[2..], '-') == Decimal(chunks);
      assert parts[1..][1..] == parts[2..];
    }
    SplitJoin(parts, '-');
    ParseDecimal(chunks, UsizeBound);
  }

  const InsertFailedText: string := "Error occurred while inserting"
  const EncryptFailedText: string := "Error occurred while encrypting the data"
  const DecryptFailedText: string := "Error occurred while decrypting the data"

  /** A store failure's reply: an `ErrorResponse` with a fixed text and no
      error record; the store's own detail is not sent. */
  function StoreFailure(version: string, text: string): Message
  {
    Message(version, ErrorResponse, Entry("Error", text), None)
  }

  /** A command that does not belong to its request variant. */
  function InvalidCommand(version: string): (m: Message)
    ensures WellFormed(m)
  {
    Message(version, ErrorResponse, Empty, Some(DusaError(ErrorCode.InternalError, "Invalid command parsing")))
  }

  function UnknownType(version: string): (m: Message)
    ensures WellFormed(m)
  {
    Message(version, ErrorResponse, Empty, Some(DusaError(UnknownMessageType, "Unknown message type")))
  }

  function DecryptTextReply(outcome: StoreResult<Plaintext>, version: string): Option<Message>
  {
    match outcome
    case Done(Utf8(text)) => Some(Message(version, Response, Entry("value", text), None))
    case Done(NotUtf8) => None
    case Failed(_) => Some(StoreFailure(version, DecryptFailedText))
  }

  /** The one reply to a request, or None when the handler panics (the
      decrypted text is not UTF-8). `incoming` is the client's version. */
  function Reply(req: RequestPayload, store: Store, incoming: string, version: string): (r: Option<Message>)
    ensures r.Some? ==> r.value.msgType == Response || r.value.msgType == ErrorResponse
    ensures r.None? <==>
      && req.PlainText? && req.command == DecryptRawText
      && var (cipher, key, chunks) := ParseRawText(req.data); store.decryptRaw(cipher, key, chunks) == Done(NotUtf8)
  {
    match req
    case Write(path, owner, name, _) =>
      (match store.store(path, owner, name)
       case Done(_) => Some(Message(version, Response, Entry("Ok", "file " + path.text + " written"), None))
       case Failed(_) => Some(StoreFailure(version, InsertFailedText)))
    case PlainText(command, data, _) =>
      (match command
       case EncryptRawText =>
         (match store.encryptRaw(data)
          case Done((key, cipher, chunks)) =>
            Some(Message(version, Response, Entry("value", FormatRawText(cipher, key, chunks)), None))
          case Failed(_) => Some(StoreFailure(version, EncryptFailedText)))
       case DecryptRawText =>
         var (cipher, key, chunks) := ParseRawText(data);
         DecryptTextReply(store.decryptRaw(cipher, key, chunks), version)
       case _ => Some(InvalidCommand(version)))
    case Simple(command, owner, name, uid) =>
      (match command
       case DecryptFile =>
         (match store.retrieve(owner, name, uid)
          case Done((tempP, origP)) =>
            Some(Message(version, Response, DecryptData(DecryptResponseData(tempP, origP, TTL)), None))
          case Failed(_) => Some(StoreFailure(version, DecryptFailedText)))
       case RemoveFile =>
         (match store.remove(owner, name)
          case Done(_) => Some(Message(incoming, Response, Entry("value", "Ok"), None))
          case Failed(_) => Some(StoreFailure(version, DecryptFailedText)))
       case PingFile => Some(Message(version, Response, Entry("value", "Not implemented"), None))
       case _ => Some(InvalidCommand(version)))
  }

  /** The temporary file a request leaves for a reaper: the one a successful
      `DecryptFile` hands out. */
  function ReapTarget(req: RequestPayload, store: Store): (t: Option<PathType>)
    ensures t.Some? ==> req.Simple? && req.command == DecryptFile
  {
    if req.Simple? && req.command == DecryptFile then
      match store.retrieve(req.owner, req.name, req.uid)
      case Done((tempP, _)) => Some(tempP)
      case Failed(_) => None
    else None
  }

  /** What routing sends after the version check. */
  function Routed(m: Message, store: Store, version: string): seq<Message>
  {
    match m.msgType
    case Request =>
      (match Reply(RequestOf(m), store, m.version, version)
       case Some(reply) => [reply, AckMessage(version)]
       case None => [])
    case Simple => [AckMessage(m.version)]
    case _ => [UnknownType(version)]
  }

  /** Every envelope the daemon sends for one incoming envelope, in order. */
  function Expected(m: Message, store: Store, version: string): seq<Message>
  {
    VersionReplies(m, version) + Routed(m, store, version)
  }

  /** The branch of `handle_client` that answers one decoded request: it
      sends the reply (when the client still listens) and reports the
      reaper it spawns and whether it panicked. */
  method Answer(conn: Connection, req: RequestPayload, store: Store, incoming: string, version: string)
    returns (reaper: Option<PathType>, panicked: bool)
    modifies conn
    ensures var r := Reply(req, store, incoming, version);
      && conn.sent == old(conn.sent) + (if conn.peerOpen && r.Some? then [r.value] else [])
      && panicked == r.None?
    ensures reaper == ReapTarget(req, store)
    ensures conn.inbox == old(conn.inbox) && conn.peerOpen == old(conn.peerOpen)
  {
    var reply := Reply(req, store, incoming, version);
    if reply.None? {
      return ReapTarget(req, store), true;
    }
    var _ := conn.Send(reply.value);
    reaper, panicked := ReapTarget(req, store), false;
  }

  /** `handle_client`: one envelope in; the replies out (when the client
      still listens); the reaper the handler spawns, if any; and whether the
      handler panicked. Send failures are only printed. */
  method HandleClient(conn: Connection, store: Store, version: string)
    returns (reaper: Option<PathType>, panicked: bool)
    modifies conn
    ensures old(conn.inbox) == [] ==>
      conn.sent == old(conn.sent) && conn.inbox == [] && reaper.None? && !panicked
    ensures old(conn.inbox) != [] ==>
      var m := old(conn.inbox)[0];
      && conn.inbox == old(conn.inbox)[1..]
      && conn.sent == old(conn.sent) + (if conn.peerOpen then Expected(m, store, version) else [])
      && reaper == (if m.msgType == Request then ReapTarget(RequestOf(m), store) else None)
      && panicked == (m.msgType == Request && Reply(RequestOf(m), store, m.version, version).None?)
    ensures conn.peerOpen == old(conn.peerOpen)
  {
    reaper, panicked := None, false;
    var received := conn.Receive();
    if received.None? {
      return;
    }
    var m := received.value;
    ghost var before := conn.sent;

    if !CheckVersion(m.version, version) {
      var response := Message(version, ErrorResponse, Empty,
                              Some(DusaError(InvalidVersion, VersionMismatchText(version, m.version))));
      var _ := conn.Send(response);
    }
    assert conn.sent == before + (if conn.peerOpen then VersionReplies(m, version) else []);
    ghost var checked := conn.sent;
    reaper, panicked := Route(conn, m, store, version);
    assert conn.sent == checked + (if conn.peerOpen then Routed(m, store, version) else []);
  }

  /** The routing part of `handle_client`, after the version check. */
  method Route(conn: Connection, m: Message, store: Store, version: string)
    returns (reaper: Option<PathType>, panicked: bool)
    modifies conn
    ensures conn.sent == old(conn.sent) + (if conn.peerOpen then Routed(m, store, version) else [])
    ensures reaper == (if m.msgType == Request then ReapTarget(RequestOf(m), store) else None)
    ensures panicked == (m.msgType == Request && Reply(RequestOf(m), store, m.version, version).None?)
    ensures conn.inbox == old(conn.inbox) && conn.peerOpen == old(conn.peerOpen)
  {
    reaper, panicked := None, false;
    var ok;
    match m.msgType {
      case Request =>
        var req := DecodeRequest(m.payload).GetOr(FallbackRequest);
        reaper, panicked := Answer(conn, req, store, m.version, version);
        if req.Write? {
          ok := conn.Send(AckMessage(version));
          return;
        }
        if panicked {
          return;
        }
        ok := conn.Send(AckMessage(version));
      case Simple =>
        ok := conn.Send(AckMessage(m.version));
      case _ =>
        ok := conn.Send(UnknownType(version));
    }
  }

  // ---------------------------------------------------------------------
  // Properties of the replies

  /** Every request that does not crash the handler gets exactly one reply
      followed by exactly one acknowledgement, after whatever the version
      check sent. */
  lemma RequestGetsReplyThenAck(m: Message, store: Store, version: string)
    requires m.msgType == Request
    requires Reply(RequestOf(m), store, m.version, version).Some?
    ensures var sent := Expected(m, store, version);
      var k := |VersionReplies(m, version)|;
      && |sent| == k + 2
      && sent[k] == Reply(RequestOf(m), store, m.version, version).value
      && sent[k].msgType != MessageType.Acknowledge
      && sent[k + 1] == AckMessage(version)
  {
  }

  /** A version mismatch is reported first, and the message is still
      answered in full after it. */
  lemma MismatchStillAnswered(m: Message, store: Store, version: string)
    requires !CheckVersion(m.version, version)
    ensures var sent := Expected(m, store, version);
      && |sent| >= 1
      && sent[0].error == Some(DusaError(InvalidVersion, VersionMismatchText(version, m.version)))
      && sent[1..] == Routed(m, store, version)
      && |Routed(m, store, version)| >= (if m.msgType == Request && Reply(RequestOf(m), store, m.version, version).None? then 0 else 1)
  {
  }

  /** A compatible version adds nothing: only the routed replies are sent. */
  lemma CompatibleSendsOnlyRouted(m: Message, store: Store, version: string)
    requires CheckVersion(m.version, version)
    ensures Expected(m, store, version) == Routed(m, store, version)
  {
  }

  /** A request whose payload is not a request is answered as a ping:
      "Not implemented", then the acknowledgement. */
  lemma UndecodableRequestIsPing(m: Message, store: Store, version: string)
    requires m.msgType == Request && !m.payload.RequestBody?
    ensures Routed(m, store, version)
      == [Message(version, Response, Entry("value", "Not implemented"), None), AckMessage(version)]
  {
  }

  /** A `Simple` message gets only an acknowledgement echoing the client's
      version; any type other than `Request` and `Simple` gets an
      `UnknownMessageType` error and no acknowledgement. */
  lemma NonRequestRouting(m: Message, store: Store, version: string)
    requires m.msgType != Request
    ensures m.msgType == MessageType.Simple ==> Routed(m, store, version) == [AckMessage(m.version)]
    ensures m.msgType != MessageType.Simple ==>
      && Routed(m, store, version) == [UnknownType(version)]
      && Routed(m, store, version)[0].msgType != MessageType.Acknowledge
      && Routed(m, store, version)[0].error.value.code == UnknownMessageType
  {
  }

  /** Store failures never reveal the store's detail: their reply depends
      only on the request's variant and command, and carries no error record
      (so, unlike every other error reply, it is not well formed). */
  lemma StoreFailureIsFixed(req: RequestPayload, s1: Store, s2: Store, incoming: string, version: string)
    requires req.Write? ==>
      && s1.store(req.path, req.owner, req.name).Failed?
      && s2.store(req.path, req.owner, req.name).Failed?
    requires req.PlainText? ==>
      || (&& req.command == EncryptRawText
          && s1.encryptRaw(req.data).Failed? && s2.encryptRaw(req.data).Failed?)
      || (&& req.command == DecryptRawText
          && var (cipher, key, chunks) := ParseRawText(req.data);
          s1.decryptRaw(cipher, key, chunks).Failed? && s2.decryptRaw(cipher, key, chunks).Failed?)
    requires req.Simple? ==>
      || (&& req.command == DecryptFile
          && s1.retrieve(req.owner, req.name, req.uid).Failed? && s2.retrieve(req.owner, req.name, req.uid).Failed?)
      || (&& req.command == RemoveFile
          && s1.remove(req.owner, req.name).Failed? && s2.remove(req.owner, req.name).Failed?)
    ensures Reply(req, s1, incoming, version) == Reply(req, s2, incoming, version)
    ensures Reply(req, s1, incoming, version).Some?
    ensures Reply(req, s1, incoming, version).value.msgType == ErrorResponse
    ensures Reply(req, s1, incoming, version).value.error.None?
    ensures !WellFormed(Reply(req, s1, incoming, version).value)
  {
  }

  /** A command foreign to its variant gets the internal "Invalid command
      parsing" error, whatever the store would have done. */
  lemma ForeignCommandRejected(req: RequestPayload, store: Store, incoming: string, version: string)
    requires req.PlainText? ==> req.command != EncryptRawText && req.command != DecryptRawText
    requires req.Simple? ==> req.command == EncryptRawText || req.command == DecryptRawText
    requires !req.Write?
    ensures Reply(req, store, incoming, version) == Some(InvalidCommand(version))
  {
  }

  /** A successful `DecryptFile` reply carries both paths and a time-to-live
      of `TTL` seconds, and leaves the temporary path for a reaper. */
  lemma DecryptFileHandsOutTemp(req: RequestPayload, store: Store, incoming: string, version: string)
    requires req.Simple? && req.command == DecryptFile
    requires store.retrieve(req.owner, req.name, req.uid).Done?
    ensures var (tempP, origP) := store.retrieve(req.owner, req.name, req.uid).value;
      && Reply(req, store, incoming, version) == Some(Message(version, Response, DecryptData(DecryptResponseData(tempP, origP, TTL)), None))
      && Reply(req, store, incoming, version).value.payload.data.ttlSecs == 5
      && ReapTarget(req, store) == Some(tempP)
  {
  }

  /** Text the daemon encrypts comes back, through the reply, as exactly the
      arguments its decryption is called with, as long as neither the cipher
      nor the key holds a `-`. */
  lemma EncryptedTextDecryptsWith(data: string, uid: u32, store: Store, incoming: string, version: string)
    requires store.encryptRaw(data).Done?
    requires var (key, cipher, _) := store.encryptRaw(data).value; '-' !in cipher && '-' !in key
    ensures var (key, cipher, chunks) := store.encryptRaw(data).value;
      var reply := Reply(RequestPayload.PlainText(EncryptRawText, data, uid), store, incoming, version);
      && reply.Some? && reply.value.payload.Entry? && reply.value.payload.key == "value"
      && Reply(RequestPayload.PlainText(DecryptRawText, reply.value.payload.value, uid), store, incoming, version)
         == DecryptTextReply(store.decryptRaw(cipher, key, chunks), version)
  {
    var (key, cipher, chunks) := store.encryptRaw(data).value;
    RawTextRoundTrip(cipher, key, chunks);
  }
}
