/**
 * The legacy hex+hash string protocol (src/shared/main.rs,
 * src/client/main.rs and the check in src/daemon/main.rs).
 *
 * A command is a list of fields with the sender's effective uid appended,
 * joined with `*`. On the wire it is the hex of that text, one `Z`, and the
 * hex of a truncated digest of the hex text. The daemon recomputes the
 * digest and accepts the command only if the two agree.
 *
 * Texts are bytes here. `create_hash` and `truncate` come from a library
 * this model does not include, so they are the two functions of a
 * `Digest`.
 */
module LegacyWire {
  import opened Wrappers
  import opened Text
  import opened Warn

  const Z: byte := 90     // 'Z'
  const Star: byte := 42  // '*'

  /** `create_hash` and `truncate`. */
  datatype Digest = Digest(hash: seq<byte> -> seq<byte>, truncate: (seq<byte>, nat) -> seq<byte>)

  /** The digest text is long enough for the `[7..]` slice: true of a
      hex-rendered hash, and needed, as a shorter one makes the slice
      panic. */
  ghost predicate Sliceable(d: Digest)
  {
    forall c :: |d.hash(c)| >= 7
  }

  /** The tag of a hexed command: `hex(truncate(hash(c)[7..], 50))`. */
  function Tag(d: Digest, c: seq<byte>): (t: seq<byte>)
    requires Sliceable(d)
    ensures Z !in t && Star !in t
  {
    var t := Hex(d.truncate(d.hash(c)[7..], 50));
    HexAvoids(d.truncate(d.hash(c)[7..], 50), Z);
    HexAvoids(d.truncate(d.hash(c)[7..], 50), Star);
    t
  }

  /** The command text: the fields, then the uid in decimal, joined with
      `*`. */
  function Command(fields: seq<seq<byte>>, uid: u32): seq<byte>
  {
    Join(fields + [DecimalBytes(uid)], Star)
  }

  /** The daemon's split on `*` recovers the fields and the uid, as long as
      no field holds a `*`. */
  lemma CommandFields(fields: seq<seq<byte>>, uid: u32)
    requires forall i :: 0 <= i < |fields| ==> Star !in fields[i]
    ensures Split(Command(fields, uid), Star) == fields + [DecimalBytes(uid)]
  {
    var parts := fields + [DecimalBytes(uid)];
    assert Star !in DecimalBytes(uid);
    assert forall i :: 0 <= i < |parts| ==> Star !in parts[i] by {
      forall i | 0 <= i < |parts| ensures Star !in parts[i] {
        if i < |fields| { assert parts[i] == fields[i]; }
      }
    }
    SplitJoin(parts, Star);
  }

  /** `create_message`: hex of the command, `Z`, the tag of that hex. */
  function CreateMessage(fields: seq<seq<byte>>, uid: u32, d: Digest): (msg: seq<byte>)
    requires Sliceable(d)
    ensures Split(msg, Z) == [Hex(Command(fields, uid)), Tag(d, Hex(Command(fields, uid)))]
    ensures forall i :: 0 <= i < |msg| ==> msg[i] == Z || IsLowerHexDigit(msg[i])
  {
    var hexed := Hex(Command(fields, uid));
    var tag := Tag(d, hexed);
    HexAvoids(Command(fields, uid), Z);
    SplitJoin([hexed, tag], Z);
    assert Join([hexed, tag], Z) == hexed + [Z] + tag;
    Join([hexed, tag], Z)
  }

  /** Exactly one `Z` in a message: it is the only byte that is not a hex
      digit. */
  lemma OneZ(fields: seq<seq<byte>>, uid: u32, d: Digest)
    requires Sliceable(d)
    ensures var msg := CreateMessage(fields, uid, d);
      exists k :: 0 <= k < |msg| && msg[k] == Z && Z !in msg[..k] && Z !in msg[k + 1..]
  {
    var hexed := Hex(Command(fields, uid));
    var tag := Tag(d, hexed);
    var msg := CreateMessage(fields, uid, d);
    HexAvoids(Command(fields, uid), Z);
    JoinSplit(msg, Z);
    assert msg == hexed + [Z] + tag;
    var k := |hexed|;
    assert msg[..k] == hexed && msg[k + 1..] == tag;
  }

  /** What `validate_command` hands on when the tag does not match. */
  const Sentinel: seq<byte> := Ascii("GIVE ME ALL THE DATA, sike ass dude")

  /** `validate_command`: split on `Z`; if the second piece is the tag of
      the first, the first piece converted by `convert_to_string`,
      otherwise the sentinel. A buffer without `Z` makes the `[1]` index
      panic: `None`. */
  function ValidateCommand(buffer: seq<byte>, d: Digest, convert: seq<byte> -> seq<byte>): (r: Option<seq<byte>>)
    requires Sliceable(d)
    ensures r.None? <==> Z !in buffer
    ensures r.Some? ==> r.value == Sentinel || r.value == convert(Split(buffer, Z)[0])
  {
    var parts := Split(buffer, Z);
    SplitFindsDelimiter(buffer, Z);
    if |parts| < 2 then None
    else if parts[1] == Tag(d, parts[0]) then Some(convert(parts[0]))
    else Some(Sentinel)
  }

  /** The daemon accepts every message `create_message` builds, and hands
      on the converted hex of the command. */
  lemma ValidateAcceptsCreated(fields: seq<seq<byte>>, uid: u32, d: Digest, convert: seq<byte> -> seq<byte>)
    requires Sliceable(d)
    ensures ValidateCommand(CreateMessage(fields, uid, d), d, convert) == Some(convert(Hex(Command(fields, uid))))
  {
  }

  /** A command with any other tag is turned into the sentinel. */
  lemma ForgedTagRejected(hexed: seq<byte>, tag: seq<byte>, d: Digest, convert: seq<byte> -> seq<byte>)
    requires Sliceable(d)
    requires Z !in hexed && Z !in tag
    requires tag != Tag(d, hexed)
    ensures ValidateCommand(hexed + [Z] + tag, d, convert) == Some(Sentinel)
  {
    SplitJoin([hexed, tag], Z);
    assert Join([hexed, tag], Z) == hexed + [Z] + tag;
  }

  /** Anything after a second `Z` is ignored. */
  lemma TrailingPiecesIgnored(hexed: seq<byte>, tag: seq<byte>, rest: seq<byte>, d: Digest, convert: seq<byte> -> seq<byte>)
    requires Sliceable(d)
    requires Z !in hexed && Z !in tag
    ensures ValidateCommand(hexed + [Z] + tag + [Z] + rest, d, convert) == ValidateCommand(hexed + [Z] + tag, d, convert)
  {
    var longer := hexed + [Z] + tag + [Z] + rest;
    SplitJoin([hexed, tag], Z);
    assert Join([hexed, tag], Z) == hexed + [Z] + tag;
    SplitAround(hexed, tag + [Z] + rest, Z);
    assert longer == hexed + [Z] + (tag + [Z] + rest);
    SplitAround(tag, rest, Z);
    SplitWithout(tag, Z);
    SplitWithout(hexed, Z);
  }

  // ---------------------------------------------------------------------
  // `create_simple_command` (src/shared/main.rs)

  /** The actions a simple command is asked for; every action other than
      the two text actions is `OtherAction` here. */
  datatype Action = EncryptText | DecryptText | OtherAction

  /** `create_simple_command`: for both text actions the `EncryptText` tag
      and the hexed data; any other action is an `InvalidAuthRequest`
      error. `encryptTag` is how `Actions::EncryptText` displays. */
  function CreateSimpleCommand(action: Action, data: seq<byte>, uid: u32, d: Digest, encryptTag: seq<byte>)
    : (r: UnifiedResult<seq<byte>, WarningItem, ErrorItem>)
    requires Sliceable(d)
    ensures r.result.Ok? <==> action != OtherAction
    ensures r.result.Ok? ==> r.result.value == OkWarning(CreateMessage([encryptTag, Hex(data)], uid, d), Warnings([]))
    ensures r.result.Err? ==> r.result.error == Errors([ErrorItem(InvalidAuthRequest, "")])
  {
    match action
    case EncryptText =>
      New(Ok(OkWarning(CreateMessage([encryptTag, Hex(data)], uid, d), NewWarningContainer())))
    case DecryptText =>
      New(Ok(OkWarning(CreateMessage([encryptTag, Hex(data)], uid, d), NewWarningContainer())))
    case OtherAction =>
      New(Err(Errors([ErrorItem(InvalidAuthRequest, "")])))
  }

  /** Asking for decryption builds the very message encryption builds. */
  lemma DecryptTextSendsEncryptTag(data: seq<byte>, uid: u32, d: Digest, encryptTag: seq<byte>)
    requires Sliceable(d)
    ensures CreateSimpleCommand(DecryptText, data, uid, d, encryptTag) == CreateSimpleCommand(EncryptText, data, uid, d, encryptTag)
  {
  }
}
