/**
 * The legacy command-line client (src/client/main.rs): positional
 * arguments, the command-to-mode match, and the field list each mode
 * sends through `create_message` (module LegacyWire).
 *
 * Arguments are byte strings. Path checks, canonicalization and `chown` on
 * the store path are given as functions; sending and printing the reply
 * are not part of this model.
 */
module LegacyClient {
  import opened Wrappers
  import opened Text
  import opened LegacyWire
  import opened LegacyDaemon

  /** `parse_arguments`: the command and up to three operands, from
      positions 1 to 4. */
  function ParseArguments(args: seq<seq<byte>>): (r: (Option<seq<byte>>, Option<seq<byte>>, Option<seq<byte>>, Option<seq<byte>>))
    ensures r.0.Some? <==> |args| > 1
    ensures r.1.Some? <==> |args| > 2
    ensures r.2.Some? <==> |args| > 3
    ensures r.3.Some? <==> |args| > 4
    ensures r.0.Some? ==> r.0.value == args[1]
    ensures r.1.Some? ==> r.1.value == args[2]
    ensures r.2.Some? ==> r.2.value == args[3]
    ensures r.3.Some? ==> r.3.value == args[4]
  {
    (Arg(args, 1), Arg(args, 2), Arg(args, 3), Arg(args, 4))
  }

  /** `args.get(i).cloned()`. */
  function Arg(args: seq<seq<byte>>, i: nat): Option<seq<byte>>
  {
    if i < |args| then Some(args[i]) else None
  }

  datatype LegacyMode =
    | StoreFile(owner: seq<byte>, name: seq<byte>, path: seq<byte>)
    | RetrieveFile(owner: seq<byte>, name: seq<byte>)
    | EncryptText(data: seq<byte>)
    | DecryptText(data: seq<byte>)
    | RemoveFile(owner: seq<byte>, name: seq<byte>)
    | Help
    | Invalid
    | Unfinished   // `list-file` with both operands reaches a `todo!()`

  const EncryptFileCmd: seq<byte> := Ascii("encrypt-file")
  const DecryptFileCmd: seq<byte> := Ascii("decrypt-file")
  const EncryptTextCmd: seq<byte> := Ascii("encrypt-text")
  const DecryptTextCmd: seq<byte> := Ascii("decrypt-text")
  const RemoveFileCmd: seq<byte> := Ascii("remove-file")
  const ListFileCmd: seq<byte> := Ascii("list-file")
  const StatusCmd: seq<byte> := Ascii("status")

  predicate IsKnownCommand(c: seq<byte>)
  {
    c in {EncryptFileCmd, DecryptFileCmd, EncryptTextCmd, DecryptTextCmd, RemoveFileCmd, ListFileCmd, StatusCmd}
  }

  /** The operands a command needs: all three for `encrypt-file`, the
      first for the text commands, the first two otherwise. */
  function Needed(c: seq<byte>): nat
  {
    if c == EncryptFileCmd then 3
    else if c == EncryptTextCmd || c == DecryptTextCmd then 1
    else 2
  }

  function Present(a1: Option<seq<byte>>, a2: Option<seq<byte>>, a3: Option<seq<byte>>, n: nat): bool
  {
    (n < 1 || a1.Some?) && (n < 2 || a2.Some?) && (n < 3 || a3.Some?)
  }

  /** The command-to-mode match. */
  function SelectMode(command: Option<seq<byte>>, a1: Option<seq<byte>>, a2: Option<seq<byte>>, a3: Option<seq<byte>>)
    : (mode: LegacyMode)
    ensures command.None? ==> mode == Invalid
    ensures command.Some? && !IsKnownCommand(command.value) ==> mode == Help
    ensures mode == Help ==> command.Some? && !IsKnownCommand(command.value)
  {
    match command
    case None => Invalid
    case Some(c) =>
      if c == EncryptFileCmd then
        (if a1.Some? && a2.Some? && a3.Some? then StoreFile(a1.value, a2.value, a3.value) else Invalid)
      else if c == DecryptFileCmd then
        (if a1.Some? && a2.Some? then RetrieveFile(a1.value, a2.value) else Invalid)
      else if c == EncryptTextCmd then
        (if a1.Some? then LegacyMode.EncryptText(a1.value) else Invalid)
      else if c == DecryptTextCmd then
        (if a1.Some? then LegacyMode.DecryptText(a1.value) else Invalid)
      else if c == RemoveFileCmd then
        (if a1.Some? && a2.Some? then RemoveFile(a1.value, a2.value) else Invalid)
      else if c == ListFileCmd then
        (if a1.Some? && a2.Some? then Unfinished else Invalid)
      else if c == StatusCmd then Invalid
      else Help
  }

  /** A known command other than `status` gets its mode exactly when the
      operands it needs are present, and `Invalid` otherwise; a mode built
      from operands carries them in order. */
  lemma OperandsDecideMode(c: seq<byte>, a1: Option<seq<byte>>, a2: Option<seq<byte>>, a3: Option<seq<byte>>)
    requires IsKnownCommand(c) && c != StatusCmd
    ensures SelectMode(Some(c), a1, a2, a3) == Invalid <==> !Present(a1, a2, a3, Needed(c))
    ensures SelectMode(Some(c), a1, a2, a3) == StoreFile(a1.value, a2.value, a3.value) <== c == EncryptFileCmd && Present(a1, a2, a3, 3)
    ensures SelectMode(Some(c), a1, a2, a3) == RemoveFile(a1.value, a2.value) <== c == RemoveFileCmd && Present(a1, a2, a3, 2)
    ensures SelectMode(Some(c), a1, a2, a3) == RetrieveFile(a1.value, a2.value) <== c == DecryptFileCmd && Present(a1, a2, a3, 2)
    ensures SelectMode(Some(c), a1, a2, a3) == LegacyMode.DecryptText(a1.value) <== c == DecryptTextCmd && a1.Some?
    ensures SelectMode(Some(c), a1, a2, a3) == LegacyMode.EncryptText(a1.value) <== c == EncryptTextCmd && a1.Some?
    ensures SelectMode(Some(c), a1, a2, a3) == Unfinished <== c == ListFileCmd && Present(a1, a2, a3, 2)
  {
    CommandsDistinct();
  }

  /** The command words differ from one another. */
  lemma CommandsDistinct()
    ensures EncryptFileCmd != DecryptFileCmd && EncryptFileCmd != EncryptTextCmd && EncryptFileCmd != DecryptTextCmd
    ensures DecryptFileCmd != EncryptTextCmd && DecryptFileCmd != DecryptTextCmd && EncryptTextCmd != DecryptTextCmd
    ensures |RemoveFileCmd| == 11 && |ListFileCmd| == 9 && |StatusCmd| == 6
    ensures |EncryptFileCmd| == 12 && |DecryptFileCmd| == 12 && |EncryptTextCmd| == 12 && |DecryptTextCmd| == 12
  {
    assert EncryptFileCmd[0] == 101 && EncryptTextCmd[0] == 101;
    assert DecryptFileCmd[0] == 100 && DecryptTextCmd[0] == 100;
    assert EncryptFileCmd[8] == 102 && DecryptFileCmd[8] == 102;
    assert EncryptTextCmd[8] == 116 && DecryptTextCmd[8] == 116;
  }

  /** `status` is refused whatever follows it. */
  lemma StatusIsInvalid(a1: Option<seq<byte>>, a2: Option<seq<byte>>, a3: Option<seq<byte>>)
    ensures SelectMode(Some(StatusCmd), a1, a2, a3) == Invalid
  {
  }

  const InsertVerb: seq<byte> := Ascii("insert")
  const RetrieveVerb: seq<byte> := Ascii("retrieve")
  const EncryptVerb: seq<byte> := Ascii("encrypt")
  const DecryptVerb: seq<byte> := Ascii("decrypt")
  const RemoveVerb: seq<byte> := Ascii("remove")

  /** The field list each sending mode builds before `create_message`;
      `absolutePath` is the canonical store path. */
  function CommandData(mode: LegacyMode, absolutePath: seq<byte>): (fields: Option<seq<seq<byte>>>)
    ensures fields.Some? <==> mode.StoreFile? || mode.RetrieveFile? || mode.EncryptText? || mode.DecryptText? || mode.RemoveFile?
    ensures mode.StoreFile? ==> fields == Some([InsertVerb, mode.owner, mode.name, absolutePath])
    ensures mode.RetrieveFile? ==> fields == Some([RetrieveVerb, mode.owner, mode.name])
    ensures mode.EncryptText? ==> fields == Some([EncryptVerb, mode.data])
    ensures mode.DecryptText? ==> fields == Some([DecryptVerb, mode.data])
    ensures mode.RemoveFile? ==> fields == Some([RemoveVerb, mode.owner, mode.name])
  {
    match mode
    case StoreFile(owner, name, _) => Some([InsertVerb, owner, name, absolutePath])
    case RetrieveFile(owner, name) => Some([RetrieveVerb, owner, name])
    case EncryptText(data) => Some([EncryptVerb, data])
    case DecryptText(data) => Some([DecryptVerb, data])
    case RemoveFile(owner, name) => Some([RemoveVerb, owner, name])
    case _ => None
  }

  /** What the client does once the mode is chosen. */
  datatype LegacyAction = Send(message: seq<byte>) | ClientPanicked | ExitWith(status: int)

  /** The store path's checks: `path_present` (an error or `false`
      panics), `canonicalize` and the conversion to a string (a failure
      panics), and `chown` to the service (a failure panics). */
  datatype PathEnv = PathEnv(
    present: seq<byte> -> Option<bool>,
    canonicalize: seq<byte> -> Option<seq<byte>>,
    chownToService: seq<byte> -> bool)

  function ResolveStorePath(path: seq<byte>, env: PathEnv): (r: Option<seq<byte>>)
    ensures r.Some? <==>
      (env.present(path) == Some(true) && env.canonicalize(path).Some? && env.chownToService(env.canonicalize(path).value))
    ensures r.Some? ==> r.value == env.canonicalize(path).value
  {
    if env.present(path) != Some(true) then None
    else
      match env.canonicalize(path)
      case None => None
      case Some(absolute) => if env.chownToService(absolute) then Some(absolute) else None
  }

  /** The client's `main` up to the send: `Help` exits 0; `Invalid` exits
      1 after printing the usage, whose `args[0]` panics on an empty
      argument list; `list-file` and a failed store-path check panic; every
      other mode sends one message. */
  function Run(args: seq<seq<byte>>, uid: u32, d: Digest, env: PathEnv): (a: LegacyAction)
    requires Sliceable(d)
    ensures var (c, a1, a2, a3) := ParseArguments(args);
      var mode := SelectMode(c, a1, a2, a3);
      && (mode == Help <==> a == ExitWith(0))
      && (mode == Invalid && |args| > 0 <==> a == ExitWith(1))
      && (mode == Invalid && |args| == 0 ==> a == ClientPanicked)
      && (mode == Unfinished ==> a == ClientPanicked)
      && (mode.StoreFile? ==>
            a == match ResolveStorePath(mode.path, env)
                 case None => ClientPanicked
                 case Some(absolute) => Send(CreateMessage([InsertVerb, mode.owner, mode.name, absolute], uid, d)))
      && (mode.RetrieveFile? ==> a == Send(CreateMessage([RetrieveVerb, mode.owner, mode.name], uid, d)))
      && (mode.EncryptText? ==> a == Send(CreateMessage([EncryptVerb, mode.data], uid, d)))
      && (mode.DecryptText? ==> a == Send(CreateMessage([DecryptVerb, mode.data], uid, d)))
      && (mode.RemoveFile? ==> a == Send(CreateMessage([RemoveVerb, mode.owner, mode.name], uid, d)))
  {
    var (c, a1, a2, a3) := ParseArguments(args);
    var mode := SelectMode(c, a1, a2, a3);
    match mode
    case Help => ExitWith(0)
    case Invalid => if |args| == 0 then ClientPanicked else ExitWith(1)
    case Unfinished => ClientPanicked
    case StoreFile(_, _, path) =>
      (match ResolveStorePath(path, env)
       case None => ClientPanicked
       case Some(absolute) => Send(CreateMessage(CommandData(mode, absolute).value, uid, d)))
    case _ => Send(CreateMessage(CommandData(mode, []).value, uid, d))
  }

  /** A stored file's fields reach the daemon in the order the client
      pushes them: verb, owner, name, absolute path, then the uid. */
  lemma StoreFileFieldsInOrder(owner: seq<byte>, name: seq<byte>, path: seq<byte>, absolutePath: seq<byte>, uid: u32)
    requires Star !in owner && Star !in name && Star !in absolutePath
    ensures var fields := CommandData(StoreFile(owner, name, path), absolutePath).value;
      Split(Command(fields, uid), Star) == [InsertVerb, owner, name, absolutePath, DecimalBytes(uid)]
  {
    var fields := CommandData(StoreFile(owner, name, path), absolutePath).value;
    assert Star !in InsertVerb by {
      AsciiAvoids("insert", '*');
    }
    CommandFields(fields, uid);
  }

  /** The two legacy programs do not speak one language: the daemon accepts
      every message the client builds, but the client's verbs are not
      opcodes, so every such command is answered `NoKay` (when
      `convert_to_string` undoes the hex). */
  lemma LegacyClientGetsNoKay(mode: LegacyMode, absolutePath: seq<byte>, uid: u32, d: Digest,
                              convert: seq<byte> -> seq<byte>, store: LegacyStore)
    requires Sliceable(d) && store.initialized
    requires CommandData(mode, absolutePath).Some?
    requires var c := Command(CommandData(mode, absolutePath).value, uid); convert(Hex(c)) == c
    ensures var fields := CommandData(mode, absolutePath).value;
      && ValidateCommand(CreateMessage(fields, uid, d), d, convert) == Some(Command(fields, uid))
      && ProcessCommand(Command(fields, uid), store) == Replied(NoKay)
  {
    var fields := CommandData(mode, absolutePath).value;
    ValidateAcceptsCreated(fields, uid, d, convert);
    assert fields + [DecimalBytes(uid)] == [fields[0]] + (fields[1..] + [DecimalBytes(uid)]);
    ClientVerbIsNoKay(fields[0], fields[1..] + [DecimalBytes(uid)], store);
  }

  /** A whole legacy connection: a client message that fits the daemon's
      buffer is read in one piece, passes the tag check, and is answered
      `NoKay`. */
  lemma LegacyConnectionAnswersNoKay(mode: LegacyMode, absolutePath: seq<byte>, uid: u32, d: Digest,
                                     convert: seq<byte> -> seq<byte>, store: LegacyStore)
    requires Sliceable(d) && store.initialized
    requires CommandData(mode, absolutePath).Some?
    requires var c := Command(CommandData(mode, absolutePath).value, uid); convert(Hex(c)) == c
    requires |CreateMessage(CommandData(mode, absolutePath).value, uid, d)| < BufferSize
    ensures Serve(CreateMessage(CommandData(mode, absolutePath).value, uid, d), true, d, convert, store) == Answered(NoKay)
  {
    var msg := CreateMessage(CommandData(mode, absolutePath).value, uid, d);
    LegacyClientGetsNoKay(mode, absolutePath, uid, d, convert, store);
    assert msg[..|msg|] == msg;
    OneZ(CommandData(mode, absolutePath).value, uid, d);
  }
}
