/**
 * One connection end to end: the client driver (module Client) reading the
 * envelopes the daemon's dispatcher (module Dispatcher) sends for the
 * client's request.
 */
module Session {
  import opened Wrappers
  import opened Text
  import opened Warn
  import opened Protocol
  import opened Responses
  import opened Dispatcher
  import opened Client
  import opened Files

  /** With a compatible version and a `Response` reply, the handshaking
      client reads exactly the two envelopes the daemon sends, acknowledges
      once, and shows the reply's "value" text. */
  lemma HandshakeReadsEverything(req: RequestPayload, clientVersion: string, store: Store, version: string,
                                 fallback: string, warnings: seq<WarningItem>)
    requires CheckVersion(clientVersion, version)
    requires Reply(req, store, clientVersion, version).Some?
    requires Reply(req, store, clientVersion, version).value.msgType == Response
    ensures var inbox := Expected(RequestEnvelope(req, clientVersion), store, version);
      var reply := Reply(req, store, clientVersion, version).value;
      && |inbox| == 2 && ReadCount(inbox) == 2
      && AckAfter(inbox, clientVersion) == [AckMessage(clientVersion)]
      && TextOutcome(inbox, fallback, warnings) == Returned(Finished(warnings), Passed(Lookup(reply.payload, "value").GetOr(fallback)))
  {
    var m := RequestEnvelope(req, clientVersion);
    CompatibleSendsOnlyRouted(m, store, version);
    RequestGetsReplyThenAck(m, store, version);
  }

  /** A version mismatch shadows the reply: the client reads only the
      daemon's `InvalidVersion` error, shows its empty payload, and leaves
      the reply and the acknowledgement unread. */
  lemma MismatchShadowsReply(req: RequestPayload, clientVersion: string, store: Store, version: string,
                             fallback: string, errors: seq<ErrorItem>, warnings: seq<WarningItem>,
                             copy: (string, string) -> Result<nat, IoErrorKind>)
    requires !CheckVersion(clientVersion, version)
    requires Reply(req, store, clientVersion, version).Some?
    ensures var inbox := Expected(RequestEnvelope(req, clientVersion), store, version);
      && |inbox| == 3 && ReadCount(inbox) == 1
      && AckAfter(inbox, clientVersion) == []
      && TextOutcome(inbox, fallback, warnings) == Returned(Finished(warnings), Halted(Empty))
      && RetrieveOutcome(inbox, copy, errors, warnings) == Returned(Finished(warnings), Halted(Empty))
      && StoreFileOutcome(inbox[0], warnings) == Returned(Finished(warnings), Halted(Empty))
  {
    var m := RequestEnvelope(req, clientVersion);
    MismatchStillAnswered(m, store, version);
    RequestGetsReplyThenAck(m, store, version);
  }

  /** Storing a file: the client shows the daemon's "file ... written" text,
      or the fixed insert-failure payload; the closing acknowledgement is
      left unread. */
  lemma StoreFileSession(path: PathType, args: Args, env: Env, store: Store, version: string, warnings: seq<WarningItem>)
    requires CheckVersion(env.version, version)
    ensures var req := RequestPayload.Write(path, OwnerOf(args), NameOf(args), env.euid);
      var inbox := Expected(RequestEnvelope(req, env.version), store, version);
      && |inbox| == 2
      && (store.store(path, OwnerOf(args), NameOf(args)).Done? ==>
            StoreFileOutcome(inbox[0], warnings) == Returned(Finished(warnings), Passed("file " + path.text + " written")))
      && (store.store(path, OwnerOf(args), NameOf(args)).Failed? ==>
            StoreFileOutcome(inbox[0], warnings) == Returned(Finished(warnings), Halted(Entry("Error", InsertFailedText))))
  {
    var req := RequestPayload.Write(path, OwnerOf(args), NameOf(args), env.euid);
    var m := RequestEnvelope(req, env.version);
    CompatibleSendsOnlyRouted(m, store, version);
    RequestGetsReplyThenAck(m, store, version);
  }

  /** The whole of `encrypt_file` against the daemon: once the file is
      handed to the service, the client sends a `Write` request for the
      canonical path and shows what `StoreFileSession` says the daemon
      answers. */
  lemma EncryptFileSession(files: map<string, Owner>, locked: set<string>, args: Args, env: Env, store: Store,
                           version: string, warnings: seq<WarningItem>, errors: seq<ErrorItem>)
    requires CheckVersion(env.version, version)
    requires Handed(files, locked, args, env)
    ensures var path := PathBuf(env.canonicalize(args.path.value).value);
      var req := RequestPayload.Write(path, OwnerOf(args), NameOf(args), env.euid);
      var outcome := EncryptFileOutcome(files, locked, true, Expected(RequestEnvelope(req, env.version), store, version),
                                        args, env, warnings, errors);
      && (store.store(path, OwnerOf(args), NameOf(args)).Done? ==>
            outcome == Returned(Finished(warnings), Passed("file " + path.text + " written")))
      && (store.store(path, OwnerOf(args), NameOf(args)).Failed? ==>
            outcome == Returned(Finished(warnings), Halted(Entry("Error", InsertFailedText))))
  {
    var path := PathBuf(env.canonicalize(args.path.value).value);
    StoreFileSession(path, args, env, store, version, warnings);
  }

  /** Text survives a round trip through the daemon: the text the client
      shows for an encryption, handed back to it for decryption, reaches
      the store as the very cipher, key and chunk count the store produced,
      so a store that decrypts its own output shows the original text. */
  lemma TextRoundTrip(args: Args, env: Env, store: Store, version: string)
    requires CheckVersion(env.version, version)
    requires store.encryptRaw(DataOf(args)).Done?
    requires var (key, cipher, chunks) := store.encryptRaw(DataOf(args)).value;
      && '-' !in cipher && '-' !in key
      && store.decryptRaw(cipher, key, chunks) == Done(Utf8(DataOf(args)))
    ensures var (key, cipher, chunks) := store.encryptRaw(DataOf(args)).value;
      var shown := FormatRawText(cipher, key, chunks);
      && TextOutcome(Expected(RequestEnvelope(EncryptTextRequest(args, env), env.version), store, version), InvalidDataText, [])
         == Returned(Finished([]), Passed(shown))
      && TextOutcome(Expected(RequestEnvelope(DecryptTextRequest(args.(data := Some(shown)), env), env.version), store, version), InvalidDataText, [])
         == Returned(Finished([]), Passed(DataOf(args)))
  {
    var (key, cipher, chunks) := store.encryptRaw(DataOf(args)).value;
    var shown := FormatRawText(cipher, key, chunks);
    HandshakeReadsEverything(EncryptTextRequest(args, env), env.version, store, version, InvalidDataText, []);
    RawTextRoundTrip(cipher, key, chunks);
    var args' := args.(data := Some(shown));
    assert DataOf(args') == shown;
    HandshakeReadsEverything(DecryptTextRequest(args', env), env.version, store, version, InvalidDataText, []);
  }

  /** Retrieving a file: the client copies from the temporary path the
      daemon handed out (the one its reaper will take back) to the original
      path, both recovered as long as the store gives a `Content` temporary
      path and a `PathBuf` original path. */
  lemma RetrieveSession(args: Args, env: Env, store: Store, version: string,
                        errors: seq<ErrorItem>, warnings: seq<WarningItem>, temp: string, orig: string)
    requires CheckVersion(env.version, version)
    requires store.retrieve(OwnerOf(args), NameOf(args), env.euid) == Done((Content(temp), PathBuf(orig)))
    ensures var req := DecryptFileRequest(args, env);
      var inbox := Expected(RequestEnvelope(req, env.version), store, version);
      && ReapTarget(req, store) == Some(Content(temp))
      && |inbox| == 2 && ReadCount(inbox) == 2
      && RetrieveOutcome(inbox, env.copy, errors, warnings)
         == match env.copy(temp, orig)
            case Err(e) => Fatal(errors + [ErrorItem(Io(e), "")])
            case Ok(n) => Returned(Finished(warnings), if n != 0 then PassedData(DecryptResponseData(Content(temp), Content(orig), TTL)) else Quiet)
  {
    var req := DecryptFileRequest(args, env);
    var m := RequestEnvelope(req, env.version);
    CompatibleSendsOnlyRouted(m, store, version);
    RequestGetsReplyThenAck(m, store, version);
    DecryptFileHandsOutTemp(req, store, env.version, version);
  }

  /** Removing a file the store removes shows "Ok". */
  lemma RemoveSession(args: Args, env: Env, store: Store, version: string)
    requires CheckVersion(env.version, version)
    requires store.remove(OwnerOf(args), NameOf(args)).Done?
    ensures TextOutcome(Expected(RequestEnvelope(RemoveFileRequest(args, env), env.version), store, version), InvalidDataRemoveText, [])
      == Returned(Finished([]), Passed("Ok"))
  {
    HandshakeReadsEverything(RemoveFileRequest(args, env), env.version, store, version, InvalidDataRemoveText, []);
  }
}
