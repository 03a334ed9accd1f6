/**
 * The command-line client (src/client/client.rs): pick one operation from
 * the flags, fill in default fields, send one request envelope, classify the
 * reply, and, after a `Response`, run the acknowledgement handshake.
 *
 * Printing (`pass`, `halt`, `warn`) is recorded as what would be shown;
 * `halt` is taken to print and return, as its callers continue after it.
 * The effective uid, the service identity, path canonicalization and
 * `fs::copy` are inputs.
 */
module Client {
  import opened Wrappers
  import opened Text
  import opened Warn
  import opened Protocol
  import opened Responses
  import opened Channel
  import opened Files

  // ---------------------------------------------------------------------
  // Mode selection

  datatype Flags = Flags(encryptFile: bool, decryptFile: bool, encryptText: bool, decryptText: bool, removeFile: bool)

  datatype Mode = StoreFile | RetrieveFile | EncryptText | DecryptText | RemoveFile | Invalid

  function SelectMode(f: Flags): Mode
  {
    match (f.encryptFile, f.decryptFile, f.encryptText, f.decryptText, f.removeFile)
    case (true, false, false, false, false) => StoreFile
    case (false, true, false, false, false) => RetrieveFile
    case (false, false, true, false, false) => EncryptText
    case (false, false, false, true, false) => DecryptText
    case (false, false, false, false, true) => Mode.RemoveFile
    case _ => Invalid
  }

  function Count(b: bool): nat
  {
    if b then 1 else 0
  }

  function FlagsSet(f: Flags): nat
  {
    Count(f.encryptFile) + Count(f.decryptFile) + Count(f.encryptText) + Count(f.decryptText) + Count(f.removeFile)
  }

  /** A mode is chosen exactly when one flag is set, and it is that flag's
      mode. */
  lemma ModeNeedsExactlyOneFlag(f: Flags)
    ensures SelectMode(f) != Invalid <==> FlagsSet(f) == 1
    ensures SelectMode(f) == StoreFile <==> FlagsSet(f) == 1 && f.encryptFile
    ensures SelectMode(f) == RetrieveFile <==> FlagsSet(f) == 1 && f.decryptFile
    ensures SelectMode(f) == EncryptText <==> FlagsSet(f) == 1 && f.encryptText
    ensures SelectMode(f) == DecryptText <==> FlagsSet(f) == 1 && f.decryptText
    ensures SelectMode(f) == Mode.RemoveFile <==> FlagsSet(f) == 1 && f.removeFile
  {
  }

  // ---------------------------------------------------------------------
  // Requests and their defaults

  datatype Args = Args(owner: Option<string>, name: Option<string>, data: Option<string>, path: Option<string>)

  const DefaultOwner: string := "system"
  const DefaultName: string := "lost"
  const DefaultData: string := "hello world"

  function OwnerOf(args: Args): string { args.owner.GetOr(DefaultOwner) }
  function NameOf(args: Args): string { args.name.GetOr(DefaultName) }
  function DataOf(args: Args): string { args.data.GetOr(DefaultData) }

  /** Given fields are sent as given; a missing owner is "system", a missing
      name "lost" and missing text "hello world". */
  lemma Defaults(args: Args)
    ensures OwnerOf(args) == if args.owner.Some? then args.owner.value else "system"
    ensures NameOf(args) == if args.name.Some? then args.name.value else "lost"
    ensures DataOf(args) == if args.data.Some? then args.data.value else "hello world"
  {
  }

  function RequestEnvelope(req: RequestPayload, version: string): (m: Message)
    ensures m.msgType == Request && m.error.None? && WellFormed(m)
    ensures DecodeRequest(m.payload) == Some(req)
  {
    Message(version, Request, RequestBody(req), None)
  }

  /** `get_file_path`: the canonical form of the given path; no path is an
      `InvalidFile` error and a failed canonicalization its I/O error. */
  function GetFilePath(path: Option<string>, canonicalize: string -> Result<string, IoErrorKind>, errors: seq<ErrorItem>)
    : (r: Result<PathType, seq<ErrorItem>>)
    ensures path.None? ==> r == Err(errors + [ErrorItem(InvalidFile, "")])
    ensures r.Ok? <==> path.Some? && canonicalize(path.value).Ok?
    ensures r.Ok? ==> r.value == PathBuf(canonicalize(path.value).value)
    ensures r.Err? ==> |r.error| == |errors| + 1 && r.error[..|errors|] == errors
  {
    match path
    case None => Err(errors + [ErrorItem(InvalidFile, "")])
    case Some(p) =>
      match canonicalize(p)
      case Ok(d) => Ok(PathBuf(d))
      case Err(e) => Err(errors + [ErrorItem(Io(e), "")])
  }

  // ---------------------------------------------------------------------
  // Reading replies

  const NullPath: string := "/tmp/null"

  /** The decrypt-file reply as the client reads it: the temporary path only
      from a `Content` path, the original path only from a `PathBuf` path,
      each "/tmp/null" otherwise, and the time-to-live or 5 seconds. */
  function ParseDecryptData(p: Payload): (d: DecryptResponseData)
    ensures d.tempP.Content? && d.origP.Content?
    ensures !p.DecryptData? ==> d == DecryptResponseData(Content(NullPath), Content(NullPath), 5)
  {
    match p
    case DecryptData(DecryptResponseData(tempP, origP, ttl)) =>
      DecryptResponseData(Content(if tempP.Content? then tempP.text else NullPath),
                          Content(if origP.PathBuf? then origP.text else NullPath),
                          ttl)
    case _ => DecryptResponseData(Content(NullPath), Content(NullPath), 5)
  }

  /** The client recovers both paths and the time-to-live exactly when the
      daemon's temporary path is a `Content` path and its original path a
      `PathBuf`. */
  lemma DecryptDataRecovered(tempP: PathType, origP: PathType, ttl: nat)
    ensures var d := ParseDecryptData(DecryptData(DecryptResponseData(tempP, origP, ttl)));
      && d.ttlSecs == ttl
      && (d.tempP.text == tempP.text <== tempP.Content?)
      && (d.origP.text == origP.text <== origP.PathBuf?)
      && (tempP.PathBuf? ==> d.tempP.text == NullPath)
      && (origP.Content? ==> d.origP.text == NullPath)
  {
  }

  /** The string stored under `key`, if the payload is that one entry. */
  function Lookup(p: Payload, key: string): (r: Option<string>)
    ensures r.Some? <==> p.Entry? && p.key == key
    ensures r.Some? ==> r.value == p.value
  {
    if p.Entry? && p.key == key then Some(p.value) else None
  }

  // ---------------------------------------------------------------------
  // Outcomes

  /** What the client shows the user. */
  datatype Shown = Quiet | Passed(text: string) | PassedData(data: DecryptResponseData) | Halted(payload: Payload)

  type ClientResult = UnifiedResult<Option<string>, WarningItem, ErrorItem>

  datatype Outcome =
    | Returned(result: ClientResult, shown: Shown)
    | Panicked                        // an `unwrap` or `unreachable!` fired
    | Fatal(errors: seq<ErrorItem>)   // the errors were shown as fatal
    | Exited(status: int)

  const UnexpectedReply: WarningItem := WarningItem(Warning, "Server responded in an unexpected way, ignoring ...")

  function Finished(warnings: seq<WarningItem>): ClientResult
  {
    New(Ok(OkWarning(None, Warnings(warnings))))
  }

  function Failure(errors: seq<ErrorItem>): ClientResult
  {
    New(Err(Errors(errors)))
  }

  /** How `encrypt_file` ends for a reply: a `Response` must hold an "Ok"
      text (it panics otherwise), an error reply is shown, anything else
      adds one warning. */
  function StoreFileOutcome(reply: Message, warnings: seq<WarningItem>): Outcome
  {
    match reply.msgType
    case Response =>
      (match Lookup(reply.payload, "Ok")
       case Some(text) => Returned(Finished(warnings), Passed(text))
       case None => Panicked)
    case ErrorResponse => Returned(Finished(warnings), Halted(reply.payload))
    case _ => Returned(Finished(warnings + [UnexpectedReply]), Quiet)
  }

  /** What a handshaking operation sends after its request: one
      acknowledgement if the first reply is a `Response`. */
  function AckAfter(inbox: seq<Message>, version: string): seq<Message>
  {
    if |inbox| > 0 && inbox[0].msgType == Response then [AckMessage(version)] else []
  }

  /** How many envelopes a handshaking operation reads. */
  function ReadCount(inbox: seq<Message>): nat
  {
    if |inbox| > 0 && inbox[0].msgType == Response then 2 else 1
  }

  /** How `encrypt_text`, `decrypt_text` and `remove_file` end: after a
      `Response` (and the handshake) its "value" text, or `fallback`. */
  function TextOutcome(inbox: seq<Message>, fallback: string, warnings: seq<WarningItem>): Outcome
  {
    if |inbox| < ReadCount(inbox) then Panicked
    else
      match inbox[0].msgType
      case Response => Returned(Finished(warnings), Passed(Lookup(inbox[0].payload, "value").GetOr(fallback)))
      case ErrorResponse => Returned(Finished(warnings), Halted(inbox[0].payload))
      case _ => Returned(Finished(warnings + [UnexpectedReply]), Quiet)
  }

  /** How `decrypt_file` ends: after a `Response` and the handshake, the
      file is copied from the temporary to the original path; a failed copy
      is fatal, an empty one is not shown. */
  function RetrieveOutcome(inbox: seq<Message>, copy: (string, string) -> Result<nat, IoErrorKind>,
                           errors: seq<ErrorItem>, warnings: seq<WarningItem>): Outcome
  {
    if |inbox| < ReadCount(inbox) then Panicked
    else
      match inbox[0].msgType
      case Response =>
        var data := ParseDecryptData(inbox[0].payload);
        (match copy(data.tempP.text, data.origP.text)
         case Err(e) => Fatal(errors + [ErrorItem(Io(e), "")])
         case Ok(n) => Returned(Finished(warnings), if n != 0 then PassedData(data) else Quiet))
      case ErrorResponse => Returned(Finished(warnings), Halted(inbox[0].payload))
      case _ => Returned(Finished(warnings + [UnexpectedReply]), Quiet)
  }

  // ---------------------------------------------------------------------
  // The operations

  /** Everything the client takes from its surroundings. */
  datatype Env = Env(
    version: string,
    euid: u32,
    service: Owner,
    canonicalize: string -> Result<string, IoErrorKind>,
    copy: (string, string) -> Result<nat, IoErrorKind>)

  /** Whether `encrypt_file` gets as far as handing the file to the
      service: the path resolves, and the file exists and is not locked. */
  predicate Handed(files: map<string, Owner>, locked: set<string>, args: Args, env: Env)
  {
    var fp := GetFilePath(args.path, env.canonicalize, []);
    fp.Ok? && fp.value.text in files && fp.value.text !in locked
  }

  /** The file table after `encrypt_file`: the resolved file belongs to the
      service when it was handed over, and nothing else changes. */
  function EncryptFileTable(files: map<string, Owner>, locked: set<string>, args: Args, env: Env): map<string, Owner>
  {
    if Handed(files, locked, args, env) then files[GetFilePath(args.path, env.canonicalize, []).value.text := env.service]
    else files
  }

  /** How `encrypt_file` ends, given the file table, whether the daemon
      still listens, and the envelopes it has sent back. */
  function EncryptFileOutcome(files: map<string, Owner>, locked: set<string>, peerOpen: bool, inbox: seq<Message>,
                              args: Args, env: Env, warnings: seq<WarningItem>, errors: seq<ErrorItem>): Outcome
  {
    var fp := GetFilePath(args.path, env.canonicalize, errors);
    if fp.Err? then Returned(Failure(fp.error), Quiet)
    else if fp.value.text !in files || fp.value.text in locked then Returned(Failure(errors + [ChownFailed]), Quiet)
    else if !peerOpen then Returned(Failure(errors + [ErrorItem(Io(BrokenPipe), "")]), Quiet)
    else if inbox == [] then Panicked
    else StoreFileOutcome(inbox[0], warnings)
  }

  /** `encrypt_file`: resolve the path, hand the file to the service, send
      a `Write` request and read one reply; no acknowledgement. */
  method EncryptFile(conn: Connection, files: FileTable, args: Args, env: Env,
                     warnings: seq<WarningItem>, errors: seq<ErrorItem>) returns (o: Outcome)
    modifies conn, files
    ensures var fp := GetFilePath(args.path, env.canonicalize, errors);
      && (fp.Err? ==>
            o == Returned(Failure(fp.error), Quiet) && conn.sent == old(conn.sent)
            && conn.inbox == old(conn.inbox) && files.files == old(files.files))
      && (fp.Ok? && (fp.value.text !in old(files.files) || fp.value.text in files.locked) ==>
            o == Returned(Failure(errors + [ChownFailed]), Quiet) && conn.sent == old(conn.sent)
            && conn.inbox == old(conn.inbox) && files.files == old(files.files))
      && (fp.Ok? && fp.value.text in old(files.files) && fp.value.text !in files.locked ==>
            var request := RequestEnvelope(RequestPayload.Write(fp.value, OwnerOf(args), NameOf(args), env.euid), env.version);
            && files.files == old(files.files)[fp.value.text := env.service]
            && (!conn.peerOpen ==>
                  o == Returned(Failure(errors + [ErrorItem(Io(BrokenPipe), "")]), Quiet)
                  && conn.sent == old(conn.sent) && conn.inbox == old(conn.inbox))
            && (conn.peerOpen ==>
                  && conn.sent == old(conn.sent) + [request]
                  && (old(conn.inbox) == [] ==> o == Panicked && conn.inbox == [])
                  && (old(conn.inbox) != [] ==>
                        o == StoreFileOutcome(old(conn.inbox)[0], warnings) && conn.inbox == old(conn.inbox)[1..])))
    ensures o == EncryptFileOutcome(old(files.files), files.locked, conn.peerOpen, old(conn.inbox), args, env, warnings, errors)
    ensures files.files == EncryptFileTable(old(files.files), files.locked, args, env)
    ensures conn.peerOpen == old(conn.peerOpen) && files.locked == old(files.locked)
  {
    var fp := GetFilePath(args.path, env.canonicalize, errors);
    if fp.Err? {
      return Returned(Failure(fp.error), Quiet);
    }
    var filePath := fp.value;
    var owned := SetFileOwnership(files, filePath.text, env.service.uid, env.service.gid, errors);
    if owned.Err? {
      return Returned(Failure(owned.error), Quiet);
    }
    var request := RequestPayload.Write(filePath, OwnerOf(args), NameOf(args), env.euid);
    var ok := conn.Send(RequestEnvelope(request, env.version));
    if !ok {
      return Returned(Failure(errors + [ErrorItem(Io(BrokenPipe), "")]), Quiet);
    }
    var response := conn.Receive();
    if response.None? {
      return Panicked;
    }
    var reply := response.value;
    var w := warnings;
    match reply.msgType {
      case Response =>
        var msg := Lookup(reply.payload, "Ok");
        if msg.None? {
          return Panicked;
        }
        return Returned(Finished(w), Passed(msg.value));
      case ErrorResponse =>
        return Returned(Finished(w), Halted(reply.payload));
      case _ =>
        w := w + [UnexpectedReply];
    }
    return Returned(Finished(w), Quiet);
  }

  /** The shape shared by `encrypt_text`, `decrypt_text` and `remove_file`:
      send the request (a failure is ignored), read the reply, and after a
      `Response` acknowledge it and read the daemon's acknowledgement. */
  method Exchange(conn: Connection, request: RequestPayload, fallback: string, version: string,
                  warnings: seq<WarningItem>) returns (o: Outcome)
    modifies conn
    ensures conn.sent == old(conn.sent)
      + (if conn.peerOpen then [RequestEnvelope(request, version)] + AckAfter(old(conn.inbox), version) else [])
    ensures o == TextOutcome(old(conn.inbox), fallback, warnings)
    ensures conn.inbox == old(conn.inbox)[Min(ReadCount(old(conn.inbox)), |old(conn.inbox)|)..]
    ensures conn.peerOpen == old(conn.peerOpen)
  {
    var _ := conn.Send(RequestEnvelope(request, version));
    var response := conn.Receive();
    if response.None? {
      return Panicked;
    }
    var reply := response.value;
    var w := warnings;
    match reply.msgType {
      case Response =>
        var _ := conn.Send(AckMessage(version));
        var closing := conn.Receive();
        if closing.None? {
          return Panicked;
        }
        return Returned(Finished(w), Passed(Lookup(reply.payload, "value").GetOr(fallback)));
      case ErrorResponse =>
        return Returned(Finished(w), Halted(reply.payload));
      case _ =>
        w := w + [UnexpectedReply];
    }
    return Returned(Finished(w), Quiet);
  }

  function EncryptTextRequest(args: Args, env: Env): RequestPayload
  {
    RequestPayload.PlainText(EncryptRawText, DataOf(args), env.euid)
  }

  function DecryptTextRequest(args: Args, env: Env): RequestPayload
  {
    RequestPayload.PlainText(DecryptRawText, DataOf(args), env.euid)
  }

  function RemoveFileRequest(args: Args, env: Env): RequestPayload
  {
    RequestPayload.Simple(Commands.RemoveFile, OwnerOf(args), NameOf(args), env.euid)
  }

  function DecryptFileRequest(args: Args, env: Env): RequestPayload
  {
    RequestPayload.Simple(DecryptFile, OwnerOf(args), NameOf(args), env.euid)
  }

  const InvalidDataText: string := "Invalid data received"
  /** `remove_file`'s fallback, spelled as the client spells it. */
  const InvalidDataRemoveText: string := "Invalid data recived"

  /** `decrypt_file`: send a `DecryptFile` request (a failure is only shown),
      read the reply, and after a `Response` acknowledge it, read the
      daemon's acknowledgement and copy the file back. */
  method DecryptFileOp(conn: Connection, args: Args, env: Env,
                       warnings: seq<WarningItem>, errors: seq<ErrorItem>) returns (o: Outcome)
    modifies conn
    ensures conn.sent == old(conn.sent)
      + (if conn.peerOpen then [RequestEnvelope(DecryptFileRequest(args, env), env.version)] + AckAfter(old(conn.inbox), env.version) else [])
    ensures o == RetrieveOutcome(old(conn.inbox), env.copy, errors, warnings)
    ensures conn.inbox == old(conn.inbox)[Min(ReadCount(old(conn.inbox)), |old(conn.inbox)|)..]
    ensures conn.peerOpen == old(conn.peerOpen)
  {
    var _ := conn.Send(RequestEnvelope(DecryptFileRequest(args, env), env.version));
    var response := conn.Receive();
    if response.None? {
      return Panicked;
    }
    var reply := response.value;
    var w := warnings;
    match reply.msgType {
      case Response =>
        var data := ParseDecryptData(reply.payload);
        var _ := conn.Send(AckMessage(env.version));
        var closing := conn.Receive();
        if closing.None? {
          return Panicked;
        }
        match env.copy(data.tempP.text, data.origP.text) {
          case Err(e) =>
            return Fatal(errors + [ErrorItem(Io(e), "")]);
          case Ok(n) =>
            return Returned(Finished(w), if n != 0 then PassedData(data) else Quiet);
        }
      case ErrorResponse =>
        return Returned(Finished(w), Halted(reply.payload));
      case _ =>
        w := w + [UnexpectedReply];
    }
    return Returned(Finished(w), Quiet);
  }

  /** The client's `main` after the socket path is known: connect (a
      failure ends the process before any mode is acted on), then run the
      selected operation; `Invalid` exits with status 1 and sends nothing. */
  method RunClient(flags: Flags, connected: bool, conn: Connection, files: FileTable, args: Args, env: Env)
    returns (o: Outcome)
    modifies conn, files
    ensures !connected ==> o == Panicked && conn.sent == old(conn.sent)
    ensures connected && SelectMode(flags) == Invalid ==> o == Exited(1) && conn.sent == old(conn.sent)
    ensures connected && SelectMode(flags) == StoreFile ==>
      && o == EncryptFileOutcome(old(files.files), files.locked, conn.peerOpen, old(conn.inbox), args, env, [], [])
      && files.files == EncryptFileTable(old(files.files), files.locked, args, env)
    ensures !connected || SelectMode(flags) != StoreFile ==> files.files == old(files.files)
    ensures files.locked == old(files.locked)
    ensures connected && SelectMode(flags) == EncryptText ==>
      o == TextOutcome(old(conn.inbox), InvalidDataText, [])
    ensures connected && SelectMode(flags) == DecryptText ==>
      o == TextOutcome(old(conn.inbox), InvalidDataText, [])
    ensures connected && SelectMode(flags) == Mode.RemoveFile ==>
      o == TextOutcome(old(conn.inbox), InvalidDataRemoveText, [])
    ensures connected && SelectMode(flags) == RetrieveFile ==>
      o == RetrieveOutcome(old(conn.inbox), env.copy, [], [])
    ensures connected && SelectMode(flags) != StoreFile && SelectMode(flags) != Invalid ==>
      && |conn.sent| >= |old(conn.sent)|
      && conn.sent[..|old(conn.sent)|] == old(conn.sent)
      && (conn.peerOpen ==> |conn.sent| > |old(conn.sent)| && conn.sent[|old(conn.sent)|].msgType == Request)
    ensures connected && SelectMode(flags) == EncryptText ==>
      conn.sent == old(conn.sent) + (if conn.peerOpen then
        [RequestEnvelope(EncryptTextRequest(args, env), env.version)] + AckAfter(old(conn.inbox), env.version) else [])
    ensures connected && SelectMode(flags) == DecryptText ==>
      conn.sent == old(conn.sent) + (if conn.peerOpen then
        [RequestEnvelope(DecryptTextRequest(args, env), env.version)] + AckAfter(old(conn.inbox), env.version) else [])
    ensures connected && SelectMode(flags) == Mode.RemoveFile ==>
      conn.sent == old(conn.sent) + (if conn.peerOpen then
        [RequestEnvelope(RemoveFileRequest(args, env), env.version)] + AckAfter(old(conn.inbox), env.version) else [])
    ensures connected && SelectMode(flags) == RetrieveFile ==>
      conn.sent == old(conn.sent) + (if conn.peerOpen then
        [RequestEnvelope(DecryptFileRequest(args, env), env.version)] + AckAfter(old(conn.inbox), env.version) else [])
    ensures conn.peerOpen == old(conn.peerOpen)
  {
    var mode := SelectMode(flags);
    if !connected {
      return Panicked;
    }
    match mode {
      case StoreFile => o := EncryptFile(conn, files, args, env, [], []);
      case RetrieveFile => o := DecryptFileOp(conn, args, env, [], []);
      case EncryptText => o := Exchange(conn, EncryptTextRequest(args, env), InvalidDataText, env.version, []);
      case DecryptText => o := Exchange(conn, DecryptTextRequest(args, env), InvalidDataText, env.version, []);
      case RemoveFile => o := Exchange(conn, RemoveFileRequest(args, env), InvalidDataRemoveText, env.version, []);
      case Invalid => o := Exited(1);
    }
  }
}
