# dusa: a Dafny model of the daemon, the client and their wire protocol

dusa is a file-and-text encryption service. A daemon listens on a Unix
socket and serves four kinds of request:
- store a file (`encrypt-file`);
- retrieve it into a temporary path that a reaper later deletes (`decrypt-file`);
- encrypt and decrypt raw text;
- remove a stored file.

A command-line client drives it. Two generations of the protocol live in
the repository:

- **The current protocol.** JSON envelopes (`version`, `msg_type`,
  `payload`, `error`) framed by a 4-byte big-endian length prefix.
  - The daemon checks the client's version and answers a mismatch with an
    `InvalidVersion` error.
  - It dispatches the request and sends the reply.
  - It closes every request with an acknowledgement.
  - The client reads one reply, or two when the first is a `Response`
    (acknowledging in between), and shows the reply's text.
- **The legacy protocol.** A command is a list of fields plus the sender's
  uid, joined with `*`. It is sent as hex, a `Z`, and the hex of a truncated
  digest of that hex.
  - The daemon recomputes the digest and replaces a forged command with a
    fixed sentinel.
  - It dispatches on an opcode such as `0x000`.
  - It replies once and shuts the connection.

The model is split into modules that follow the source files:

| module | models |
|---|---|
| `Wrappers`, `Text` | `Option`/`Result`; Rust's `split`, `join`, lower-case hex, `u32`/`usize` parsing, used by everything else |
| `Warn` | the `Warnings`/`Errors`/`UnifiedResult` wrappers of `src/shared/warn.rs` |
| `Framing` | `send_message`/`receive_message` of `src/shared/prefix.rs`, over a byte stream class |
| `Protocol` | the envelope types, display codes and `check_version` of `src/shared/shared.rs` |
| `Responses` | `internal_error` and `acknowledge` of `src/daemon/response_err.rs` |
| `Channel` | a connection at envelope level: what was received, what was sent |
| `Files` | the file table behind `set_file_ownership` and the reaper's delete |
| `Dispatcher` | `handle_client` of `src/daemon/server.rs` and its reaper |
| `Client` | the client driver of `src/client/client.rs` |
| `Session` | the client and the daemon on one connection |
| `LegacyWire` | `create_message`, `create_simple_command` and `validate_command` of the legacy programs |
| `LegacyDaemon` | `process_command` and `handle_client` of `src/daemon/main.rs` |
| `LegacyClient` | the argument handling and mode match of `src/client/main.rs` |

Some calls leave the core: the store, encryption, JSON serialization,
hashing, `chown`, `canonicalize` and `copy`. Each is a function-valued
parameter or a field of a datatype (`Store`, `LegacyStore`, `Digest`,
`Env`, `PathEnv`). Every property is proved for all such functions. The
crate version is a parameter `version`.

Panics are outcomes of their own: `Panicked`, `ThreadPanicked`,
`ClientPanicked`, or `None` from `ValidateCommand`. Process exits are
`Exited`, `Fatal`, `ProcessExited`, or `ExitsWith(1)`.

Three behaviours of the code are easy to miss; the model keeps them:

- **Store failures carry no error record.** Everywhere else the daemon
  sets an envelope's error record exactly when it is an `ErrorResponse`
  (`internal_error`, the version error, the invalid-command and
  unknown-type replies). The daemon's store failures break that: they are `ErrorResponse`
  envelopes with `error: None` and the fixed payload
  `{"Error": "Error occurred while ..."}` (`src/daemon/server.rs:158-170`, and
  the four other store failures alike). `Dispatcher.StoreFailureIsFixed` states
  this.
- **Version mismatches are answered, then processed.** After the
  `InvalidVersion` error the daemon does not stop: it goes on to process
  the request (`src/daemon/server.rs:93-110` has no `return`). A client
  with a mismatched version therefore receives three envelopes and reads
  only the first.
- **The legacy programs do not understand each other.** The client sends
  verbs (`insert`, `retrieve`, ...). The daemon dispatches on opcodes
  (`0x000`, ...). Every command the legacy client builds passes the
  daemon's tag check and is answered "not okay", assuming the legacy
  `convert_to_string` undoes the hex encoding
  (`LegacyClient.LegacyClientGetsNoKay`).

## Model

| member | source | states |
|---|---|---|
| `Text.HexRoundTrip` | src/daemon/main.rs:233-240 | `hex::decode` gives back the bytes `hex::encode` rendered |
| `Text.ParseDecimal` | src/daemon/main.rs:164-266 | a number's decimal rendering parses back to that number when it fits the integer width |
| `Warn.Unwrap` | src/shared/warn.rs:37-42 | `unwrap` is Ok exactly for an Ok result, with its data and warnings dropped; an Err keeps its errors |
| `Warn.Resolve` | src/shared/warn.rs:24-35 | `resolve` returns the data of an Ok result and otherwise exits with status 1 |
| `Warn.UnwrapNew` | src/shared/warn.rs:20-22 | unwrapping what `new` wrapped gives back the data or the same errors |
| `Warn.ResolveAgreesWithUnwrap` | src/shared/warn.rs:24-42 | `resolve` returns exactly when `unwrap` is Ok, with the same data, and exits with 1 otherwise |
| `Framing.BigEndianRoundTrip` | src/shared/prefix.rs:25-26 | reading back a big-endian `u32` prefix gives the number written |
| `Framing.FromBigEndianRoundTrip` | src/shared/prefix.rs:51 | any four prefix bytes are the big-endian rendering of the number they are read as |
| `Framing.LengthPrefix` | src/shared/prefix.rs:25-26 | the prefix is four bytes holding the body length modulo 2^32 (the `as u32` cast) |
| `Framing.PrefixWraps` | src/shared/prefix.rs:25 | bodies whose lengths differ by 2^32 get the same prefix |
| `Framing.Frame` | src/shared/prefix.rs:28-37 | a frame is the 4 prefix bytes followed by the body |
| `Framing.Deframe` | src/shared/prefix.rs:44-58 | a body is found exactly when 4 prefix bytes and that many body bytes are available; the input splits into prefix, body and rest |
| `Framing.DeframeFrame` | src/shared/prefix.rs:17-58 | deframing a frame gives the body cut to its length modulo 2^32 |
| `Framing.FrameRoundTrip` | src/shared/prefix.rs:17-58 | a body shorter than 2^32 bytes is received exactly as sent, and the bytes after it are left |
| `Framing.FramesInOrder` | src/shared/prefix.rs:17-58 | consecutive frames are received as the same bodies in the same order |
| `Framing.Stream.WriteAll` | src/shared/prefix.rs:29-37 | `write_all` succeeds exactly when the peer takes the whole buffer; the bytes taken are appended to the output |
| `Framing.Stream.ReadExact` | src/shared/prefix.rs:46-58 | `read_exact` succeeds exactly when enough bytes are waiting; it fills the buffer with them and consumes them, and an error consumes the rest |
| `Framing.SendMessage` | src/shared/prefix.rs:17-40 | a serialization error pushes a JSON error and writes nothing; otherwise the frame is written, and a short write pushes a broken-pipe error |
| `Framing.ReceiveMessage` | src/shared/prefix.rs:43-68 | an incomplete frame pushes an end-of-file error; a complete one is consumed and its body deserialized, with a JSON error if that fails |
| `Protocol.DecodeRequest` | src/daemon/server.rs:115-121 | a payload decodes to a request exactly when it holds one, and it is that request |
| `Protocol.CommandCodesDistinct` | src/shared/shared.rs:135-145 | command display codes are two characters and distinct |
| `Protocol.ErrorCodeTextsDistinct` | src/shared/shared.rs:122-133 | error code display texts are distinct |
| `Protocol.MessageTypeTextsDistinct` | src/shared/shared.rs:265-277 | message type display texts are distinct |
| `Protocol.ParseVersion` | src/shared/shared.rs:156-165 | a version parses only with three dot-separated parts and a `u32` patch |
| `Protocol.CheckVersion` | src/shared/shared.rs:154-174 | an accepted version has three parts and a numeric patch, and the daemon's own version parses |
| `Protocol.ParseRenderedVersion` | src/shared/shared.rs:156-165 | `major.minor.patch` parses to `(major, minor)` |
| `Protocol.VersionCompatibility` | src/shared/shared.rs:154-174 | any incoming version, however spelled, is accepted exactly when it parses and its major and minor equal those of the daemon's own version |
| `Protocol.RenderedVersionCompatibility` | src/shared/shared.rs:154-174 | `major.minor.patch` is accepted exactly when the daemon's own version parses to that major and minor |
| `Protocol.PatchIgnored` | src/shared/shared.rs:167-173 | versions differing only in the patch are accepted alike |
| `Protocol.UnparsableOwnVersionRejectsAll` | src/shared/shared.rs:154-174 | if the daemon's own version does not parse, every client is rejected |
| `Responses.InternalErrorMessage` | src/daemon/response_err.rs:6-17 | an internal error is a well-formed `ErrorResponse` with code `InternalError`, the given detail and a fixed payload |
| `Responses.AckMessage` | src/daemon/response_err.rs:19-25 | an acknowledgement is a well-formed `Acknowledge` with an empty payload and no error |
| `Responses.InternalErrorHidesDetail` | src/daemon/response_err.rs:6-17 | the payload is the same whatever the detail; only the error record carries it |
| `Responses.Acknowledge` | src/daemon/response_err.rs:19-27 | `acknowledge` sends the framed acknowledgement, with the send's error cases |
| `Channel.Connection.Send` | src/shared/prefix.rs:17-40 | a send appends the envelope while the peer is open and fails otherwise |
| `Channel.Connection.Receive` | src/shared/prefix.rs:43-68 | a receive takes the first waiting envelope, or fails when none is waiting |
| `Channel.Bodies` | src/shared/prefix.rs:18-24 | the serialized bodies of a list of envelopes, one per envelope |
| `Channel.EnvelopesArriveInOrder` | src/shared/prefix.rs:17-68 | envelopes sent as frames are received as the same envelopes in the same order |
| `Files.FileTable.Chown` | src/shared/shared.rs:228-239 | `chown` succeeds exactly on an existing, unlocked path and sets only its owner |
| `Files.FileTable.Delete` | src/daemon/server.rs:344-356 | a delete removes the path and reports whether it existed |
| `Files.SetFileOwnership` | src/shared/shared.rs:228-239 | `set_file_ownership` sets the owner or pushes a chown error, and the table changes only on success |
| `Files.Reap` | src/daemon/server.rs:336-356 | the reaper deletes the temporary path unless it is locked |
| `Files.ReapedOnlyTouchesPath` | src/daemon/server.rs:336-356 | reaping keeps every other file with its owner and never adds one |
| `Files.ReapIdempotent` | src/daemon/server.rs:336-356 | reaping twice is reaping once |
| `Dispatcher.RequestOf` | src/daemon/server.rs:115-121 | an undecodable request payload falls back to a `PingFile` request |
| `Dispatcher.VersionReplies` | src/daemon/server.rs:93-110 | exactly one `InvalidVersion` error for a rejected version, none otherwise |
| `Dispatcher.ParseRawText` | src/daemon/server.rs:228-243 | the key and cipher parsed from raw text hold no `-` |
| `Dispatcher.RawTextRoundTrip` | src/daemon/server.rs:194-243 | the `cipher-key-chunks` text the daemon hands out parses back to the same cipher, key and chunks |
| `Dispatcher.InvalidCommand` | src/daemon/server.rs:279-295 | the wrong-command reply is a well-formed `InvalidCommand` error |
| `Dispatcher.UnknownType` | src/daemon/server.rs:470-483 | the reply to an unexpected message type is a well-formed error |
| `Dispatcher.Reply` | src/daemon/server.rs:129-441 | every reply is a `Response` or an `ErrorResponse`; there is none exactly when a raw-text decryption yields bytes that are not UTF-8, which panics the handler |
| `Dispatcher.ReapTarget` | src/daemon/server.rs:304-356 | only a `DecryptFile` request starts the reaper |
| `Dispatcher.Answer` | src/daemon/server.rs:129-458 | answers a request with its reply, or panics, and starts the reaper on the temporary path |
| `Dispatcher.Route` | src/daemon/server.rs:112-483 | routes by message type: a request gets its reply then an acknowledgement, `Simple` an acknowledgement, anything else an error |
| `Dispatcher.HandleClient` | src/daemon/server.rs:82-485 | a failed receive sends nothing; otherwise the version replies and then the routed replies are sent |
| `Dispatcher.RequestGetsReplyThenAck` | src/daemon/server.rs:129-458 | a request that does not panic gets its reply and then exactly one acknowledgement |
| `Dispatcher.MismatchStillAnswered` | src/daemon/server.rs:93-458 | a rejected version gets the `InvalidVersion` error first, and the request is still processed |
| `Dispatcher.CompatibleSendsOnlyRouted` | src/daemon/server.rs:93-110 | an accepted version adds nothing before the routed replies |
| `Dispatcher.UndecodableRequestIsPing` | src/daemon/server.rs:115-121 | an undecodable request is answered as a ping of the default file |
| `Dispatcher.NonRequestRouting` | src/daemon/server.rs:460-483 | `Simple` gets one acknowledgement, any other type one `UnknownType` error |
| `Dispatcher.StoreFailureIsFixed` | src/daemon/server.rs:158-409 | a failure of any of the five store calls (store, encrypt text, decrypt text, retrieve, remove) gives the same reply whatever the failure, an `ErrorResponse` with no error record |
| `Dispatcher.ForeignCommandRejected` | src/daemon/server.rs:279-295 | a command sent under the wrong request kind is an `InvalidCommand` error |
| `Dispatcher.DecryptFileHandsOutTemp` | src/daemon/server.rs:304-335 | a retrieved file's reply carries the temporary and original paths and the TTL, and the reaper takes the temporary path |
| `Dispatcher.EncryptedTextDecryptsWith` | src/daemon/server.rs:194-278 | the text an encryption returns, handed back, reaches the store as the very cipher, key and chunks |
| `Client.ModeNeedsExactlyOneFlag` | src/client/client.rs:55-62 | a mode is chosen exactly when one flag is set, and it is that flag's mode |
| `Client.Defaults` | src/client/client.rs:116-134 | missing owner, name and data default to "system", "lost" and "hello world" |
| `Client.RequestEnvelope` | src/client/client.rs:116-134 | a request envelope is well formed, with no error, and decodes to the request it carries |
| `Client.GetFilePath` | src/client/client.rs:480-500 | a path is returned exactly when one is given and canonicalizes; otherwise one error is pushed after the others |
| `Client.ParseDecryptData` | src/client/client.rs:216-235 | the retrieve reply is read into content paths, with `/tmp/null` and a TTL of 5 for anything else |
| `Client.DecryptDataRecovered` | src/client/client.rs:216-235 | a reply built from content and `PathBuf` paths is read back to those paths and that TTL |
| `Client.Lookup` | src/client/client.rs:278-342 | a key is found exactly when the payload is that single entry |
| `Client.EncryptFile` | src/client/client.rs:89-173 | path and chown errors send nothing; otherwise the request is sent and the first envelope read is classified; the outcome is `EncryptFileOutcome` and the new file table `EncryptFileTable` |
| `Client.Exchange` | src/client/client.rs:278-342 | sends the request, reads one envelope or two around an acknowledgement, and shows the reply text or the fallback |
| `Client.DecryptFileOp` | src/client/client.rs:175-276 | sends the request, acknowledges a `Response`, and copies the temporary file to the original path |
| `Client.RunClient` | src/client/client.rs:47-87 | no connection panics, an invalid mode exits with 1 and sends nothing, and each mode ends as its operation does, with that mode's exact request and acknowledgement trace; only `encrypt-file` changes the file table, and whether the daemon is listening does not change |
| `Session.HandshakeReadsEverything` | src/client/client.rs:278-342 | with an accepted version the client reads both envelopes the daemon sends and acknowledges once |
| `Session.MismatchShadowsReply` | src/client/client.rs:143-167 | after a version mismatch every client operation shows the error's empty payload and reads nothing more |
| `Session.StoreFileSession` | src/client/client.rs:143-167 | storing a file shows the daemon's "written" text or its fixed failure payload |
| `Session.EncryptFileSession` | src/client/client.rs:89-173 | once the file is handed to the service, `encrypt_file` against the daemon shows the "written" text for the canonical path, or the insert-failure payload |
| `Session.TextRoundTrip` | src/client/client.rs:278-408 | text encrypted through the daemon and decrypted through it comes back unchanged |
| `Session.RetrieveSession` | src/client/client.rs:175-276 | retrieving copies from the temporary path the reaper will take back to the original path |
| `Session.RemoveSession` | src/client/client.rs:410-478 | removing a stored file shows "Ok" |
| `LegacyWire.Tag` | src/shared/main.rs:107-123 | the tag is hex, so it holds neither `Z` nor `*` |
| `LegacyWire.CommandFields` | src/client/main.rs:206-222 | the daemon's split on `*` recovers the fields and the uid |
| `LegacyWire.CreateMessage` | src/client/main.rs:206-222 | a message splits on `Z` into the hexed command and its tag, and holds only hex digits and one `Z` |
| `LegacyWire.OneZ` | src/client/main.rs:206-222 | a message holds exactly one `Z` |
| `LegacyWire.ValidateCommand` | src/daemon/main.rs:134-151 | no `Z` panics; otherwise the converted command or the sentinel |
| `LegacyWire.ValidateAcceptsCreated` | src/daemon/main.rs:134-151 | every message `create_message` builds passes the check |
| `LegacyWire.ForgedTagRejected` | src/daemon/main.rs:134-151 | any other tag gives the sentinel |
| `LegacyWire.TrailingPiecesIgnored` | src/daemon/main.rs:134-151 | anything after a second `Z` does not change the verdict |
| `LegacyWire.CreateSimpleCommand` | src/shared/main.rs:73-105 | the text actions build a message of the `EncryptText` tag and the hexed data; any other action is an `InvalidAuthRequest` error |
| `LegacyWire.DecryptTextSendsEncryptTag` | src/shared/main.rs:73-105 | asking for decryption builds the same message as asking for encryption |
| `LegacyDaemon.Field` | src/daemon/main.rs:161-266 | a missing field takes its default |
| `LegacyDaemon.ProcessCommand` | src/daemon/main.rs:153-268 | an uninitialized store ends the process; a non-opcode is "not okay"; only retrieve, ping and decrypt can panic |
| `LegacyDaemon.InsertFields` | src/daemon/main.rs:164-176 | `0x000` inserts field 3 (the path) under field 1 (the owner) and field 2 (the name); later fields are ignored |
| `LegacyDaemon.RemoveFields` | src/daemon/main.rs:198-208 | `0x100` removes field 2 (the name) of field 1 (the owner); later fields are ignored |
| `LegacyDaemon.PingFields` | src/daemon/main.rs:209-216 | `0x110` answers whether field 2 (the name) of field 1 (the owner) is stored, and panics when the store reports an error |
| `LegacyDaemon.RetrieveFields` | src/daemon/main.rs:177-197 | `0x010` with a decimal uid replies the store's two paths in its order, or "not okay" |
| `LegacyDaemon.EncryptFields` | src/daemon/main.rs:217-232 | `0x001` replies key, cipher and chunk count in that order, or "not okay" |
| `LegacyDaemon.MapFields` | src/daemon/main.rs:258-265 | `0x111` updates the map number when it parses as a `u32`, and map 0 otherwise |
| `LegacyDaemon.Dispatch` | src/daemon/main.rs:164-266 | dispatch never ends the process and answers a non-opcode "not okay" |
| `LegacyDaemon.SentinelIsNoKay` | src/daemon/main.rs:134-161 | a forged command is answered "not okay" |
| `LegacyDaemon.BareInsert` | src/daemon/main.rs:164-175 | a bare insert stores empty fields |
| `LegacyDaemon.BareRemove` | src/daemon/main.rs:164-266 | a bare remove removes empty owner and name |
| `LegacyDaemon.BareRetrievePanics` | src/daemon/main.rs:164-266 | a bare retrieve panics on the missing uid |
| `LegacyDaemon.BareMapIsZero` | src/daemon/main.rs:164-266 | a bare map update uses number 0 |
| `LegacyDaemon.EncryptReplyDecrypts` | src/daemon/main.rs:164-266 | the key, cipher and chunks an encryption replies, sent back for decryption, reach the store unchanged |
| `LegacyDaemon.ChunksDefaultToOne` | src/daemon/main.rs:164-266 | an unparsable chunk count decrypts with 1 |
| `LegacyDaemon.ClientVerbIsNoKay` | src/daemon/main.rs:164-266 | a command starting with a client verb is "not okay" |
| `LegacyDaemon.LegacyStream.Read` | src/daemon/main.rs:91-96 | a read takes what is waiting, up to the buffer's length, into the buffer |
| `LegacyDaemon.LegacyStream.Write` | src/daemon/main.rs:109-118 | a write fails when the client does not take data; otherwise it appends the prefix of the data that fits the client's room and returns its length |
| `LegacyDaemon.LegacyStream.Shutdown` | src/daemon/main.rs:128-131 | shutdown closes the stream and changes nothing else |
| `LegacyDaemon.Grow` | src/daemon/main.rs:102-104 | the new buffer is four times as long, starts with the old contents and is zero after them |
| `LegacyDaemon.HandleClient` | src/daemon/main.rs:85-132 | one read, the tag check, one write of the reply (possibly cut short) and the shutdown; a panic or exit skips the write and the shutdown; the stream's readable and writable states and its room are unchanged, and a failed or empty read consumes nothing |
| `LegacyClient.ParseArguments` | src/client/main.rs:186-200 | positions 1 to 4 are taken when present |
| `LegacyClient.SelectMode` | src/client/main.rs:36-67 | no command is invalid; an unknown command, and only that, asks for help |
| `LegacyClient.OperandsDecideMode` | src/client/main.rs:36-67 | a known command gets its mode exactly when the operands it needs are present, carrying them in order for each of the six commands; `list-file` with its operands is unfinished |
| `LegacyClient.CommandsDistinct` | src/client/main.rs:36-67 | the command words differ from one another |
| `LegacyClient.StatusIsInvalid` | src/client/main.rs:36-67 | `status` is refused whatever follows it |
| `LegacyClient.CommandData` | src/client/main.rs:71-171 | each sending mode builds its own verb followed by its operands in order (`insert`, owner, name, absolute path for a stored file) |
| `LegacyClient.StoreFileFieldsInOrder` | src/client/main.rs:88-92 | a stored file's fields reach the daemon's split as `insert`, owner, name, absolute path, uid |
| `LegacyClient.ResolveStorePath` | src/client/main.rs:71-102 | the store path is used exactly when it is present, canonicalizes and can be handed to the service |
| `LegacyClient.Run` | src/client/main.rs:16-182 | help exits with 0; an invalid command exits with 1, or panics in the usage text when there are no arguments at all; `list-file` panics; a stored file is sent exactly when its path checks pass, with the canonical path; the other modes always send their message |
| `LegacyClient.LegacyClientGetsNoKay` | src/client/main.rs:71-171 | every command the legacy client builds passes the daemon's check and is answered "not okay" |
| `LegacyClient.LegacyConnectionAnswersNoKay` | src/daemon/main.rs:85-132 | a whole legacy connection for such a command ends in a "not okay" reply |

## Left out

- Daemon startup is not modelled: `setuid`/`setgid`, `SOCKET_PATH`, binding, `set_socket_permission` and the accept loop are process setup.
- Threads and timing are not modelled. The reaper runs once and its `sleep(TTL)` is dropped; handlers are not concurrent.
- The store, encryption, JSON (de)serialization, hashing, truncation, `convert_to_string`, `okay_val`, `chown`, `canonicalize` and `copy` are not modelled. These calls go to code outside the core, so they are parameters.
- Printing is not modelled: `display`, the help text and the client's output.
- `halt` comes from a library outside the core, and the model assumes it prints and returns. The source itself follows one `halt` with `unreachable!()` (src/client/client.rs:67-68), so it may end the process instead. The members that rest on this assumption are:
  - `LegacyWire.ValidateCommand`, `LegacyWire.ForgedTagRejected` and `LegacyDaemon.SentinelIsNoKay` (the forged command carries on as the sentinel);
  - `LegacyDaemon.HandleClient` (a failed write or shutdown still ends normally);
  - the `Halted` outcomes of `Client.StoreFileOutcome`, `Client.TextOutcome` and `Client.RetrieveOutcome`, and so `Client.EncryptFile`, `Client.Exchange`, `Client.DecryptFileOp`, `Session.MismatchShadowsReply`, `Session.StoreFileSession` and `Session.EncryptFileSession`.
- The `Warnings::push` and `Errors::push` calls are not modelled. They take the container by value and drop it, so no caller ever sees the pushed item. The model appends to the errors its callers keep.
- Error details that come from foreign errors are the empty string.
- `get_id`/`geteuid` are not modelled: the uid is a parameter.
- `Channel.Connection.Send`: whether the peer is open is fixed for a connection; a peer that closes midway is not modelled.
- `LegacyDaemon.LegacyStream.Read`: a read returns every waiting byte up to the buffer size; shorter reads are not modelled.
- `LegacyDaemon.HandleClient`: the resized buffer is never read again. Its length is reported and nothing else.
- `LegacyWire.Tag`: the hash text is assumed to be at least 7 bytes long. A shorter one makes the source's `[7..]` slice panic.
- `LegacyWire.CreateSimpleCommand`: every action other than the two text actions is one `OtherAction`.
- `LegacyClient.Run`: sending, reading the reply and the file reads after a retrieve are not modelled. The model stops at the message to send, or the panic.
- `LegacyDaemon.LegacyStream.Write`: how many bytes one `write` takes is a fixed `room` of the stream, not chosen anew for each call. The daemon writes once and ignores the count, so a reply longer than the room arrives cut short.
- `Client.RunClient`: connecting is a given outcome (`connected`); `decrypt-file` prints the retrieved data rather than return it.
