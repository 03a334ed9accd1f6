/**
 * The legacy daemon (src/daemon/main.rs): one read into a growable buffer,
 * the tag check, opcode dispatch over `*`-separated fields, one reply.
 *
 * The `recs` calls are the functions of a `LegacyStore`; `okay_val`,
 * `no_kay_val` and `convert_to_string` are not part of this model, so the
 * reply is kept as a `LegacyReply` and rendered by a given function.
 */
module LegacyDaemon {
  import opened Wrappers
  import opened Text
  import opened LegacyWire

  /** The replies `okay_val(..)` and `no_kay_val()` stand for. */
  datatype LegacyReply = Okay(fields: Option<seq<seq<byte>>>) | NoKay

  /** How one command ends: a reply, a panic of the handling thread, or the
      process ending (the store failed to initialize). */
  datatype Processed = Replied(reply: LegacyReply) | Panicked | Exited

  /** Decrypted bytes, and whether they are valid UTF-8. */
  datatype Decrypted = Utf8Bytes(bytes: seq<byte>) | NotUtf8Bytes

  /** The outcomes of the `recs` calls; `None` is an `Err`. */
  datatype LegacyStore = LegacyStore(
    initialized: bool,
    insert: (seq<byte>, seq<byte>, seq<byte>) -> bool,                  // path, owner, name
    retrive: (seq<byte>, seq<byte>, u32) -> Option<(seq<byte>, seq<byte>)>,
    remove: (seq<byte>, seq<byte>) -> bool,
    ping: (seq<byte>, seq<byte>) -> Option<bool>,
    encryptRaw: seq<byte> -> Option<(seq<byte>, seq<byte>, usize)>,   // key, cipher, chunks
    decryptRaw: (seq<byte>, seq<byte>, usize) -> Option<Decrypted>,   // data, key, chunks
    updateMap: u32 -> bool)

  const Eq: byte := 61  // '='

  const OpInsert: seq<byte> := [48, 120, 48, 48, 48]  // "0x000"
  const OpRetrieve: seq<byte> := [48, 120, 48, 49, 48]  // "0x010"
  const OpRemove: seq<byte> := [48, 120, 49, 48, 48]  // "0x100"
  const OpPing: seq<byte> := [48, 120, 49, 49, 48]  // "0x110"
  const OpEncrypt: seq<byte> := [48, 120, 48, 48, 49]  // "0x001"
  const OpDecrypt: seq<byte> := [48, 120, 48, 49, 49]  // "0x011"
  const OpMap: seq<byte> := [48, 120, 49, 49, 49]  // "0x111"

  predicate IsOpcode(op: seq<byte>)
  {
    op in {OpInsert, OpRetrieve, OpRemove, OpPing, OpEncrypt, OpDecrypt, OpMap}
  }

  /** `parts.get(i).unwrap_or(default)`. */
  function Field(parts: seq<seq<byte>>, i: nat, default: seq<byte>): (f: seq<byte>)
    ensures i < |parts| ==> f == parts[i]
    ensures i >= |parts| ==> f == default
  {
    if i < |parts| then parts[i] else default
  }

  function OkayOrNot(ok: bool): LegacyReply
  {
    if ok then Okay(None) else NoKay
  }

  /** Opcode `0x011`: hex-decode field 1 (failure panics), split it on `=`
      into key, data and chunks (a missing piece panics), read the chunk
      count as a `usize` or 1, and decrypt; bytes that are not UTF-8 make
      the `unwrap` panic. */
  function DecryptCommand(hexed: seq<byte>, store: LegacyStore): Processed
  {
    match HexDecode(hexed)
    case None => Panicked
    case Some(raw) =>
      var pieces := Split(raw, Eq);
      if |pieces| < 3 then Panicked
      else
        var chunks := ParseUnsigned(Latin1(pieces[2]), UsizeBound).GetOr(1);
        match store.decryptRaw(pieces[1], pieces[0], chunks)
        case None => Replied(NoKay)
        case Some(NotUtf8Bytes) => Panicked
        case Some(Utf8Bytes(text)) => Replied(Okay(Some([text])))
  }

  /** `process_command`: the store must initialize (its failure ends the
      process), then the command is split on `*` and dispatched. */
  function ProcessCommand(command: seq<byte>, store: LegacyStore): (p: Processed)
    ensures !store.initialized ==> p == Exited
    ensures store.initialized && !IsOpcode(Split(command, Star)[0]) ==> p == Replied(NoKay)
    ensures p == Panicked ==> Split(command, Star)[0] in {OpRetrieve, OpPing, OpDecrypt}
  {
    if !store.initialized then Exited
    else Dispatch(Split(command, Star), store)
  }

  /** The opcode dispatch on field 0; a missing field is empty (the map
      number's is "0"). */
  function Dispatch(parts: seq<seq<byte>>, store: LegacyStore): (p: Processed)
    requires |parts| >= 1
    ensures p != Exited
    ensures !IsOpcode(parts[0]) ==> p == Replied(NoKay)
  {
    var op := parts[0];
    if op == OpInsert then
      Replied(OkayOrNot(store.insert(Field(parts, 3, []), Field(parts, 1, []), Field(parts, 2, []))))
    else if op == OpRetrieve then
      match ParseU32(Latin1(Field(parts, 3, [])))
      case None => Panicked
      case Some(uid) =>
        match store.retrive(Field(parts, 1, []), Field(parts, 2, []), uid)
        case Some((filePath, fileHome)) => Replied(Okay(Some([filePath, fileHome])))
        case None => Replied(NoKay)
    else if op == OpRemove then
      Replied(OkayOrNot(store.remove(Field(parts, 1, []), Field(parts, 2, []))))
    else if op == OpPing then
      match store.ping(Field(parts, 1, []), Field(parts, 2, []))
      case None => Panicked
      case Some(found) => Replied(OkayOrNot(found))
    else if op == OpEncrypt then
      match store.encryptRaw(Field(parts, 1, []))
      case Some((key, cipher, chunks)) => Replied(Okay(Some([key, cipher, DecimalBytes(chunks)])))
      case None => Replied(NoKay)
    else if op == OpDecrypt then
      DecryptCommand(Field(parts, 1, []), store)
    else if op == OpMap then
      Replied(OkayOrNot(store.updateMap(ParseU32(Latin1(Field(parts, 1, [48]))).GetOr(0))))
    else Replied(NoKay)
  }

  /** A command without a tag match reaches dispatch as the sentinel, which
      names no opcode. */
  lemma SentinelIsNoKay(store: LegacyStore)
    requires store.initialized
    ensures ProcessCommand(Sentinel, store) == Replied(NoKay)
  {
    assert '*' !in "GIVE ME ALL THE DATA, sike ass dude";
    AsciiAvoids("GIVE ME ALL THE DATA, sike ass dude", '*');
    SplitWithout(Sentinel, Star);
    assert |Sentinel| == 35;
  }

  /** Missing fields are empty: a bare insertion stores the empty path
      under the empty owner and name. */
  lemma BareInsert(store: LegacyStore)
    requires store.initialized
    ensures ProcessCommand(OpInsert, store) == Replied(OkayOrNot(store.insert([], [], [])))
  {
    BareOpcode(OpInsert);
  }

  /** A bare removal removes the empty owner's empty name. */
  lemma BareRemove(store: LegacyStore)
    requires store.initialized
    ensures ProcessCommand(OpRemove, store) == Replied(OkayOrNot(store.remove([], [])))
  {
    BareOpcode(OpRemove);
  }

  /** A bare retrieval panics: the empty uid does not parse. */
  lemma BareRetrievePanics(store: LegacyStore)
    requires store.initialized
    ensures ProcessCommand(OpRetrieve, store) == Panicked
  {
    BareOpcode(OpRetrieve);
    assert ParseU32(Latin1([])) == None;
  }

  /** A bare map update uses map number 0. */
  lemma BareMapIsZero(store: LegacyStore)
    requires store.initialized
    ensures ProcessCommand(OpMap, store) == Replied(OkayOrNot(store.updateMap(0)))
  {
    BareOpcode(OpMap);
    assert ParseU32(Latin1([48])) == Some(0) by {
      assert Latin1([48]) == "0";
    }
  }

  lemma BareOpcode(op: seq<byte>)
    requires IsOpcode(op)
    ensures Split(op, Star) == [op]
  {
    SplitWithout(op, Star);
  }

  /** No field of the command holds a `*`. */
  predicate StarFree(parts: seq<seq<byte>>)
  {
    forall i :: 0 <= i < |parts| ==> Star !in parts[i]
  }

  /** A command joined from `*`-free fields reaches dispatch as those
      fields. */
  lemma DispatchedAsJoined(parts: seq<seq<byte>>, store: LegacyStore)
    requires |parts| >= 1 && StarFree(parts) && store.initialized
    ensures ProcessCommand(Join(parts, Star), store) == Dispatch(parts, store)
  {
    SplitJoin(parts, Star);
  }

  /** `0x000` with its fields: the store is asked to insert field 3 (the
      path) under field 1 (the owner) and field 2 (the name); later fields
      are ignored. */
  lemma InsertFields(owner: seq<byte>, name: seq<byte>, path: seq<byte>, rest: seq<seq<byte>>, store: LegacyStore)
    requires store.initialized && StarFree([owner, name, path] + rest)
    ensures ProcessCommand(Join([OpInsert, owner, name, path] + rest, Star), store)
      == Replied(OkayOrNot(store.insert(path, owner, name)))
  {
    var parts := [OpInsert, owner, name, path] + rest;
    assert parts == [OpInsert] + ([owner, name, path] + rest);
    DispatchedAsJoined(parts, store);
  }

  /** `0x100` removes name field 2 of owner field 1. */
  lemma RemoveFields(owner: seq<byte>, name: seq<byte>, rest: seq<seq<byte>>, store: LegacyStore)
    requires store.initialized && StarFree([owner, name] + rest)
    ensures ProcessCommand(Join([OpRemove, owner, name] + rest, Star), store)
      == Replied(OkayOrNot(store.remove(owner, name)))
  {
    var parts := [OpRemove, owner, name] + rest;
    assert parts == [OpRemove] + ([owner, name] + rest);
    DispatchedAsJoined(parts, store);
  }

  /** `0x110` asks whether name field 2 of owner field 1 is stored, and
      panics when the store reports an error. */
  lemma PingFields(owner: seq<byte>, name: seq<byte>, rest: seq<seq<byte>>, store: LegacyStore)
    requires store.initialized && StarFree([owner, name] + rest)
    ensures ProcessCommand(Join([OpPing, owner, name] + rest, Star), store)
      == match store.ping(owner, name)
         case None => Panicked
         case Some(found) => Replied(OkayOrNot(found))
  {
    var parts := [OpPing, owner, name] + rest;
    assert parts == [OpPing] + ([owner, name] + rest);
    DispatchedAsJoined(parts, store);
  }

  /** `0x010` with a decimal uid: the store's two paths, in its order, or
      "not okay". */
  lemma RetrieveFields(owner: seq<byte>, name: seq<byte>, uid: u32, rest: seq<seq<byte>>, store: LegacyStore)
    requires store.initialized && StarFree([owner, name] + rest)
    ensures ProcessCommand(Join([OpRetrieve, owner, name, DecimalBytes(uid)] + rest, Star), store)
      == match store.retrive(owner, name, uid)
         case Some((filePath, fileHome)) => Replied(Okay(Some([filePath, fileHome])))
         case None => Replied(NoKay)
  {
    var parts := [OpRetrieve, owner, name, DecimalBytes(uid)] + rest;
    assert Star !in DecimalBytes(uid);
    assert StarFree(parts) by {
      forall i | 0 <= i < |parts| ensures Star !in parts[i] {
        if i == 0 { assert Star !in OpRetrieve; }
        else if i < 3 { assert parts[i] == ([owner, name] + rest)[i - 1]; }
        else if i >= 4 { assert parts[i] == ([owner, name] + rest)[i - 2]; }
      }
    }
    DispatchedAsJoined(parts, store);
    assert Latin1(DecimalBytes(uid)) == Decimal(uid) by {
      Latin1Ascii(Decimal(uid));
    }
    ParseDecimal(uid, U32Bound);
  }

  /** `0x001` with its data: on success the reply carries the key, the
      cipher and the chunk count, in that order. */
  lemma EncryptFields(data: seq<byte>, rest: seq<seq<byte>>, store: LegacyStore)
    requires store.initialized && StarFree([data] + rest)
    ensures ProcessCommand(Join([OpEncrypt, data] + rest, Star), store)
      == match store.encryptRaw(data)
         case Some((key, cipher, chunks)) => Replied(Okay(Some([key, cipher, DecimalBytes(chunks)])))
         case None => Replied(NoKay)
  {
    var parts := [OpEncrypt, data] + rest;
    assert parts == [OpEncrypt] + ([data] + rest);
    DispatchedAsJoined(parts, store);
  }

  /** `0x111` with a map number: the number when it parses as a `u32`,
      and 0 otherwise. */
  lemma MapFields(num: seq<byte>, rest: seq<seq<byte>>, store: LegacyStore)
    requires store.initialized && StarFree([num] + rest)
    ensures ProcessCommand(Join([OpMap, num] + rest, Star), store)
      == Replied(OkayOrNot(store.updateMap(if ParseU32(Latin1(num)).Some? then ParseU32(Latin1(num)).value else 0)))
  {
    var parts := [OpMap, num] + rest;
    assert parts == [OpMap] + ([num] + rest);
    DispatchedAsJoined(parts, store);
  }

  /** The fields an encryption reply carries, joined with `=` and hexed,
      are a decryption command that asks the store for exactly that cipher,
      key and chunk count, as long as neither key nor cipher holds a `=`. */
  lemma EncryptReplyDecrypts(key: seq<byte>, cipher: seq<byte>, chunks: usize, store: LegacyStore)
    requires store.initialized
    requires Eq !in key && Eq !in cipher
    ensures var command := Join([OpDecrypt, Hex(Join([key, cipher, DecimalBytes(chunks)], Eq))], Star);
      ProcessCommand(command, store)
      == match store.decryptRaw(cipher, key, chunks)
         case None => Replied(NoKay)
         case Some(NotUtf8Bytes) => Panicked
         case Some(Utf8Bytes(text)) => Replied(Okay(Some([text])))
  {
    var raw := Join([key, cipher, DecimalBytes(chunks)], Eq);
    var hexed := Hex(raw);
    assert Eq !in DecimalBytes(chunks);
    SplitJoin([key, cipher, DecimalBytes(chunks)], Eq);
    HexAvoids(raw, Star);
    assert Star !in OpDecrypt;
    SplitJoin([OpDecrypt, hexed], Star);
    HexRoundTrip(raw);
    assert Latin1(DecimalBytes(chunks)) == Decimal(chunks) by {
      Latin1Ascii(Decimal(chunks));
    }
    ParseDecimal(chunks, UsizeBound);
  }

  /** A chunk count that does not parse is 1. */
  lemma ChunksDefaultToOne(key: seq<byte>, data: seq<byte>, chunks: seq<byte>, store: LegacyStore)
    requires Eq !in key && Eq !in data && Eq !in chunks
    requires ParseUnsigned(Latin1(chunks), UsizeBound).None?
    ensures DecryptCommand(Hex(Join([key, data, chunks], Eq)), store)
      == match store.decryptRaw(data, key, 1)
         case None => Replied(NoKay)
         case Some(NotUtf8Bytes) => Panicked
         case Some(Utf8Bytes(text)) => Replied(Okay(Some([text])))
  {
    SplitJoin([key, data, chunks], Eq);
    HexRoundTrip(Join([key, data, chunks], Eq));
  }

  /** The verbs the legacy client sends are not opcodes, so a legacy
      client's command is answered `NoKay` once it reaches dispatch. */
  lemma ClientVerbIsNoKay(verb: seq<byte>, rest: seq<seq<byte>>, store: LegacyStore)
    requires verb in {Ascii("insert"), Ascii("retrieve"), Ascii("encrypt"), Ascii("decrypt"), Ascii("remove")}
    requires store.initialized
    ensures ProcessCommand(Join([verb] + rest, Star), store) == Replied(NoKay)
  {
    assert Star !in verb;
    FirstPieceOfJoin([verb] + rest, Star);
    assert !IsOpcode(verb) by {
      assert |verb| >= 6;
    }
  }

  // ---------------------------------------------------------------------
  // The connection handler

  const BufferSize: nat := 40960

  /** The daemon's side of one connection. */
  class LegacyStream {
    /** Bytes the client has sent and the daemon has not read. */
    var incoming: seq<byte>
    /** Whether a read succeeds. */
    var readable: bool
    /** Every byte the daemon has written. */
    var written: seq<byte>
    /** Whether a write succeeds. */
    var writable: bool
    /** How many bytes one `write` call hands to the client; a reply longer
        than this is cut short. */
    var room: nat
    /** Whether `shutdown` has been called. */
    var closed: bool

    constructor (incoming: seq<byte>, readable: bool, writable: bool, room: nat)
      ensures this.incoming == incoming && this.readable == readable && this.writable == writable && this.room == room
      ensures written == [] && !closed
    {
      this.incoming := incoming;
      this.readable := readable;
      this.writable := writable;
      this.room := room;
      written := [];
      closed := false;
    }

    /** `read`: fills the front of `buf` with as many waiting bytes as fit
        and returns how many; `None` is a read error. */
    method Read(buf: array<byte>) returns (size: Option<nat>)
      modifies this, buf
      ensures !readable ==> size.None? && incoming == old(incoming) && buf[..] == old(buf[..])
      ensures readable ==>
        && size == Some(if |old(incoming)| < buf.Length then |old(incoming)| else buf.Length)
        && buf[..size.value] == old(incoming)[..size.value]
        && buf[size.value..] == old(buf[size.value..])
        && incoming == old(incoming)[size.value..]
      ensures written == old(written) && readable == old(readable) && writable == old(writable) && closed == old(closed)
      ensures room == old(room)
    {
      if !readable {
        return None;
      }
      var waiting := incoming;
      var n := if |waiting| < buf.Length then |waiting| else buf.Length;
      var i := 0;
      while i < n
        invariant 0 <= i <= n
        invariant forall k :: 0 <= k < i ==> buf[k] == waiting[k]
        invariant forall k :: i <= k < buf.Length ==> buf[k] == old(buf[k])
        modifies buf
      {
        buf[i] := waiting[i];
        i := i + 1;
      }
      incoming := waiting[n..];
      size := Some(n);
    }

    /** `write`: one call, which may take only a prefix of `data`; it
        returns how many bytes were taken, or `None` for a write error. */
    method Write(data: seq<byte>) returns (count: Option<nat>)
      modifies this
      ensures count.Some? <==> writable
      ensures count.Some? ==> count.value == Min(|data|, room) && written == old(written) + data[..count.value]
      ensures count.None? ==> written == old(written)
      ensures incoming == old(incoming) && readable == old(readable) && writable == old(writable) && closed == old(closed)
      ensures room == old(room)
    {
      if !writable {
        return None;
      }
      var n := Min(|data|, room);
      written := written + data[..n];
      count := Some(n);
    }

    method Shutdown()
      modifies this
      ensures closed
      ensures incoming == old(incoming) && written == old(written) && readable == old(readable) && writable == old(writable)
      ensures room == old(room)
    {
      closed := true;
    }
  }

  /** `buffer.resize(len * 4, 0)`: the contents kept, zeros after them. */
  method Grow(buffer: array<byte>) returns (bigger: array<byte>)
    ensures fresh(bigger)
    ensures bigger.Length == 4 * buffer.Length
    ensures bigger[..buffer.Length] == buffer[..]
    ensures forall i :: buffer.Length <= i < bigger.Length ==> bigger[i] == 0
  {
    bigger := new byte[4 * buffer.Length](_ => 0);
    var i := 0;
    while i < buffer.Length
      invariant 0 <= i <= buffer.Length
      invariant bigger[..i] == buffer[..i]
      invariant forall k :: buffer.Length <= k < bigger.Length ==> bigger[k] == 0
    {
      bigger[i] := buffer[i];
      i := i + 1;
    }
  }

  /** How a connection ends. */
  datatype Served =
    | ReadFailed          // the read error is printed
    | PeerClosed          // the first read returned nothing
    | ThreadPanicked      // the handling thread panicked
    | ProcessExited
    | Answered(reply: LegacyReply)

  /** What one connection amounts to, given what the client sent. */
  function Serve(incoming: seq<byte>, readable: bool, d: Digest, convert: seq<byte> -> seq<byte>, store: LegacyStore): Served
    requires Sliceable(d)
  {
    if !readable then ReadFailed
    else if incoming == [] then PeerClosed
    else
      var size := if |incoming| < BufferSize then |incoming| else BufferSize;
      match ValidateCommand(incoming[..size], d, convert)
      case None => ThreadPanicked
      case Some(command) =>
        match ProcessCommand(command, store)
        case Panicked => ThreadPanicked
        case Exited => ProcessExited
        case Replied(reply) => Answered(reply)
  }

  /** `handle_client`: one read of at most 40960 bytes; a full buffer is
      quadrupled; the reply to that one read is written, and the
      connection is shut down, whatever the write did. The source's read
      loop breaks on every branch, so its body runs once and is written
      here without the loop. */
  method HandleClient(stream: LegacyStream, d: Digest, convert: seq<byte> -> seq<byte>, store: LegacyStore,
                      render: LegacyReply -> seq<byte>)
    returns (served: Served, bufferLength: nat)
    requires Sliceable(d)
    modifies stream
    ensures served == Serve(old(stream.incoming), old(stream.readable), d, convert, store)
    ensures served.Answered? ==>
      stream.written == old(stream.written)
        + (if stream.writable then render(served.reply)[..Min(|render(served.reply)|, stream.room)] else [])
    ensures !served.Answered? ==> stream.written == old(stream.written)
    ensures served != ThreadPanicked && served != ProcessExited ==> stream.closed
    ensures served == ThreadPanicked || served == ProcessExited ==> stream.closed == old(stream.closed)
    ensures old(stream.readable) && old(stream.incoming) != [] ==>
      stream.incoming == old(stream.incoming)[Min(|old(stream.incoming)|, BufferSize)..]
    ensures served.Answered? ==> bufferLength == if |old(stream.incoming)| >= BufferSize then 4 * BufferSize else BufferSize
    ensures stream.readable == old(stream.readable) && stream.writable == old(stream.writable)
    ensures stream.room == old(stream.room)
    ensures !old(stream.readable) || old(stream.incoming) == [] ==> stream.incoming == old(stream.incoming)
  {
    var buffer := new byte[BufferSize](_ => 0);
    bufferLength := buffer.Length;
    var read := stream.Read(buffer);
    if read.None? {
      served := ReadFailed;
    } else if read.value == 0 {
      served := PeerClosed;
    } else {
      var size := read.value;
      assert buffer[..size] == old(stream.incoming)[..size];
      var validated := ValidateCommand(buffer[..size], d, convert);
      if validated.None? {
        return ThreadPanicked, bufferLength;
      }
      if size == buffer.Length {
        buffer := Grow(buffer);
        bufferLength := buffer.Length;
      }
      var processed := ProcessCommand(validated.value, store);
      match processed {
        case Panicked =>
          return ThreadPanicked, bufferLength;
        case Exited =>
          return ProcessExited, bufferLength;
        case Replied(reply) =>
          var _ := stream.Write(render(reply));
          served := Answered(reply);
      }
    }
    stream.Shutdown();
  }
}
