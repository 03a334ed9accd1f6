/**
 * The wire protocol's vocabulary (src/shared/shared.rs): the closed enums,
 * the request payloads, the message envelope and its structured error, the
 * display tables, the time-to-live constant and the version check.
 *
 * The JSON payload of an envelope is modelled by the shapes the daemon and
 * the client actually put there or look for (`Payload`); serde itself is not
 * modelled.
 */
module Protocol {
  import opened Wrappers
  import opened Text

  /** Seconds a decrypted temporary file lives before it is reclaimed. */
  const TTL: nat := 5

  datatype MessageType = Request | Response | ErrorResponse | Simple | Acknowledge | Test

  datatype Commands = EncryptRawText | DecryptRawText | DecryptFile | RemoveFile | PingFile

  datatype ErrorCode =
    | UnknownMessageType
    | InvalidPayload
    | InvalidVersion
    | InternalError
    | InvalidPermissions

  datatype DusaError = DusaError(code: ErrorCode, message: string)

  /** A filesystem path as the collection-utils crate carries it: a plain
      string, or an already-built `PathBuf`. Both display as their text. */
  datatype PathType = Content(text: string) | PathBuf(text: string)

  /** The three request shapes (`RequestRecsWrite`, `RequestRecsPlainText`,
      `RequestRecsSimple`) under the tagged union `RequestPayload`. */
  datatype RequestPayload =
    | Write(path: PathType, owner: string, name: string, uid: u32)
    | PlainText(command: Commands, data: string, uid: u32)
    | Simple(command: Commands, owner: string, name: string, uid: u32)

  /** `DecryptResponseData`; the `ttl` duration is kept as whole seconds. */
  datatype DecryptResponseData = DecryptResponseData(tempP: PathType, origP: PathType, ttlSecs: nat)

  /** The JSON values that travel in an envelope's payload. */
  datatype Payload =
    | Empty                                   // {}
    | Entry(key: string, value: string)       // {"<key>": "<value>"}
    | DecryptData(data: DecryptResponseData)  // a serialized DecryptResponseData
    | RequestBody(request: RequestPayload)    // a serialized RequestPayload
    | OtherJson                               // any other JSON value

  /** `Message<T>` and `GeneralMessage`: the envelope. */
  datatype Message = Message(version: string, msgType: MessageType, payload: Payload, error: Option<DusaError>)

  /** The envelope invariant the protocol documents: the error is present
      exactly on an `ErrorResponse`. */
  predicate WellFormed(m: Message)
  {
    m.error.Some? <==> m.msgType == ErrorResponse
  }

  /** Decoding a payload into a request (`serde_json::from_value`); only a
      serialized request decodes. */
  function DecodeRequest(p: Payload): (r: Option<RequestPayload>)
    ensures r.Some? <==> p.RequestBody?
    ensures r.Some? ==> p == RequestBody(r.value)
  {
    match p
    case RequestBody(req) => Some(req)
    case _ => None
  }

  // ---------------------------------------------------------------------
  // Display tables

  function ErrorCodeText(c: ErrorCode): string
  {
    match c
    case UnknownMessageType => "Unknown message type"
    case InvalidPayload => "Invalid payload"
    case InternalError => "Internal error"
    case InvalidVersion => "We aren't speaking the same language"
    case InvalidPermissions => "You have no authority here"
  }

  function CommandCode(c: Commands): string
  {
    match c
    case EncryptRawText => "et"
    case DecryptRawText => "dt"
    case DecryptFile => "df"
    case RemoveFile => "rf"
    case PingFile => "pf"
  }

  function MessageTypeText(t: MessageType): string
  {
    match t
    case Request => "Request"
    case Response => "Response"
    case ErrorResponse => "Error"
    case Simple => "Simple Message"
    case Acknowledge => "Understood"
    case Test => "Test message"
  }

  /** The command codes are two letters each and tell the commands apart. */
  lemma CommandCodesDistinct(a: Commands, b: Commands)
    ensures |CommandCode(a)| == 2
    ensures CommandCode(a) == CommandCode(b) ==> a == b
  {
  }

  /** Every error code displays as its own text. */
  lemma ErrorCodeTextsDistinct(a: ErrorCode, b: ErrorCode)
    ensures ErrorCodeText(a) == ErrorCodeText(b) ==> a == b
  {
  }

  /** Every message type displays as its own text. */
  lemma MessageTypeTextsDistinct(a: MessageType, b: MessageType)
    ensures MessageTypeText(a) == MessageTypeText(b) ==> a == b
  {
  }

  // ---------------------------------------------------------------------
  // Version check

  /** The (major, minor) of a `major.minor.patch` string: exactly three
      dot-separated parts, each a `u32`; the patch is parsed and dropped. */
  function ParseVersion(v: string): (r: Option<(u32, u32)>)
    ensures r.Some? ==> |Split(v, '.')| == 3 && ParseU32(Split(v, '.')[2]).Some?
  {
    var parts := Split(v, '.');
    if |parts| != 3 then None
    else
      match (ParseU32(parts[0]), ParseU32(parts[1]), ParseU32(parts[2]))
      case (Some(major), Some(minor), Some(_)) => Some((major, minor))
      case _ => None
  }

  /** `check_version`: the incoming version is compatible with the daemon's
      own `version` when both parse and their majors and minors agree. */
  function CheckVersion(incoming: string, version: string): (ok: bool)
    ensures ok ==> |Split(incoming, '.')| == 3
    ensures ok ==> ParseU32(Split(incoming, '.')[2]).Some?
    ensures ok ==> ParseVersion(version).Some?
  {
    match (ParseVersion(incoming), ParseVersion(version))
    case (Some((incMajor, incMinor)), Some((ownMajor, ownMinor))) =>
      incMajor == ownMajor && incMinor == ownMinor
    case _ => false
  }

  /** A version written `major.minor.patch`. */
  function VersionString(major: nat, minor: nat, patch: nat): string
  {
    Decimal(major) + "." + Decimal(minor) + "." + Decimal(patch)
  }

  lemma {:induction false} ParseRenderedVersion(major: u32, minor: u32, patch: u32)
    ensures ParseVersion(VersionString(major, minor, patch)) == Some((major, minor))
  {
    var parts := [Decimal(major), Decimal(minor), Decimal(patch)];
    forall i | 0 <= i < 3 ensures '.' !in parts[i] {
      assert AllDigits(parts[i]);
    }
    assert Join(parts, '.') == VersionString(major, minor, patch) by {
      assert Join(parts[2..], '.') == Decimal(patch);
      assert parts[1..][1..] == parts[2..];
    }
    SplitJoin(parts, '.');
    ParseDecimal(major, U32Bound);
    ParseDecimal(minor, U32Bound);
    ParseDecimal(patch, U32Bound);
  }

  /** Any incoming version is accepted exactly when it parses and its
      major and minor equal those of the daemon's own version, however
      either is spelled ("01.2.3" and "+1.2.3" parse as 1.2.3). */
  lemma VersionCompatibility(incoming: string, version: string)
    ensures CheckVersion(incoming, version)
        <==> ParseVersion(incoming).Some? && ParseVersion(incoming) == ParseVersion(version)
  {
  }

  /** For a version written `major.minor.patch`: accepted exactly when the
      daemon's own version parses to the same major and minor. */
  lemma RenderedVersionCompatibility(major: u32, minor: u32, patch: u32, version: string)
    ensures CheckVersion(VersionString(major, minor, patch), version)
        <==> ParseVersion(version) == Some((major, minor))
  {
    ParseRenderedVersion(major, minor, patch);
    VersionCompatibility(VersionString(major, minor, patch), version);
  }

  /** Two versions that differ only in the patch are judged alike. */
  lemma PatchIgnored(major: u32, minor: u32, p1: u32, p2: u32, version: string)
    ensures CheckVersion(VersionString(major, minor, p1), version)
        == CheckVersion(VersionString(major, minor, p2), version)
  {
    RenderedVersionCompatibility(major, minor, p1, version);
    RenderedVersionCompatibility(major, minor, p2, version);
  }

  /** A daemon whose own version does not parse rejects every client. */
  lemma UnparsableOwnVersionRejectsAll(incoming: string, version: string)
    requires ParseVersion(version).None?
    ensures !CheckVersion(incoming, version)
  {
  }
}
