/**
 * Length-prefixed framing over a Unix stream (src/shared/prefix.rs): a frame
 * is the body's length as a 4-byte big-endian `u32`, then the body.
 *
 * The stream is a byte sequence in each direction. Incoming bytes are
 * consumed from the front; outgoing bytes are appended. A write fails once
 * the peer stops accepting bytes (`writable` bytes remain before that
 * happens). JSON is an abstract `serialize`/`deserialize` pair.
 */
module Framing {
  import opened Wrappers
  import opened Text
  import opened Warn

  // ---------------------------------------------------------------------
  // The frame format

  /** `u32::to_be_bytes`. */
  function BigEndian32(n: u32): (b: seq<byte>)
    ensures |b| == 4
  {
    [n / 0x100_0000, (n / 0x1_0000) % 256, (n / 0x100) % 256, n % 256]
  }

  /** `u32::from_be_bytes`. */
  function FromBigEndian32(b: seq<byte>): (n: u32)
    requires |b| == 4
  {
    (b[0] as int) * 0x100_0000 + (b[1] as int) * 0x1_0000 + (b[2] as int) * 0x100 + b[3]
  }

  lemma BigEndianRoundTrip(n: u32)
    ensures FromBigEndian32(BigEndian32(n)) == n
  {
    var b := BigEndian32(n);
    assert b[0] * 0x100_0000 + (n % 0x100_0000) == n;
    assert b[1] * 0x1_0000 + (n % 0x1_0000) == n % 0x100_0000;
    assert b[2] * 0x100 + (n % 0x100) == n % 0x1_0000;
  }

  /** Every four bytes are the encoding of exactly one `u32`. */
  lemma FromBigEndianRoundTrip(b: seq<byte>)
    requires |b| == 4
    ensures BigEndian32(FromBigEndian32(b)) == b
  {
    var n := FromBigEndian32(b);
    assert n / 0x100_0000 == b[0];
    assert n % 0x100_0000 == (b[1] as int) * 0x1_0000 + (b[2] as int) * 0x100 + b[3];
    assert n % 0x1_0000 == (b[2] as int) * 0x100 + b[3];
    assert n % 0x100 == b[3];
  }

  /** The prefix written for a body of `len` bytes: `len as u32`, which
      keeps only the low 32 bits. */
  function LengthPrefix(len: nat): (p: seq<byte>)
    ensures |p| == 4
    ensures FromBigEndian32(p) == len % U32Bound
  {
    BigEndianRoundTrip(len % U32Bound);
    BigEndian32(len % U32Bound)
  }

  /** The bytes `send_message` writes for one serialized body. */
  function Frame(body: seq<byte>): (f: seq<byte>)
    ensures |f| == 4 + |body|
    ensures f[4..] == body
  {
    LengthPrefix(|body|) + body
  }

  /** What `receive_message` takes off the front of `bytes`: the body the
      prefix announces and the bytes left after it; None when fewer than 4
      bytes, or fewer body bytes than announced, are available. */
  function Deframe(bytes: seq<byte>): (r: Option<(seq<byte>, seq<byte>)>)
    ensures r.Some? <==> |bytes| >= 4 && |bytes| - 4 >= FromBigEndian32(bytes[..4])
    ensures r.Some? ==> |r.value.0| == FromBigEndian32(bytes[..4])
    ensures r.Some? ==> bytes == bytes[..4] + r.value.0 + r.value.1
  {
    if |bytes| < 4 then None
    else
      var n := FromBigEndian32(bytes[..4]);
      if |bytes| - 4 < n then None
      else Some((bytes[4..4 + n], bytes[4 + n..]))
  }

  /** Receiving from a frame: the announced length is the body's length
      modulo 2^32, so a body of 2^32 bytes or more comes back cut short and
      its tail is read as the start of the next frame. */
  lemma DeframeFrame(body: seq<byte>, rest: seq<byte>)
    ensures var n := |body| % U32Bound;
      Deframe(Frame(body) + rest) == Some((body[..n], body[n..] + rest))
  {
    var n := |body| % U32Bound;
    var bytes := Frame(body) + rest;
    assert bytes[..4] == LengthPrefix(|body|);
    assert bytes[4..4 + n] == body[..n];
    assert bytes[4 + n..] == body[n..] + rest;
  }

  /** The round trip: a body shorter than 2^32 bytes is received exactly,
      and nothing after its frame is consumed. */
  lemma FrameRoundTrip(body: seq<byte>, rest: seq<byte>)
    requires |body| < U32Bound
    ensures Deframe(Frame(body) + rest) == Some((body, rest))
  {
    DeframeFrame(body, rest);
    assert body[..|body|] == body;
  }

  /** The prefix wraps: a body 2^32 bytes longer announces the same length. */
  lemma PrefixWraps(len: nat)
    ensures LengthPrefix(len + U32Bound) == LengthPrefix(len)
  {
    assert (len + U32Bound) % U32Bound == len % U32Bound;
  }

  /** The frames of several bodies, back to back. */
  function Frames(bodies: seq<seq<byte>>): seq<byte>
  {
    if |bodies| == 0 then [] else Frame(bodies[0]) + Frames(bodies[1..])
  }

  /** Receiving `count` frames one after the other. */
  function DeframeMany(bytes: seq<byte>, count: nat): Option<(seq<seq<byte>>, seq<byte>)>
  {
    if count == 0 then Some(([], bytes))
    else
      match Deframe(bytes)
      case None => None
      case Some((body, rest)) =>
        match DeframeMany(rest, count - 1)
        case None => None
        case Some((bodies, left)) => Some(([body] + bodies, left))
  }

  /** Back-to-back frames are received in the order they were sent, each
      body whole, with the bytes after the last frame untouched. */
  lemma {:induction false} FramesInOrder(bodies: seq<seq<byte>>, rest: seq<byte>)
    requires forall i :: 0 <= i < |bodies| ==> |bodies[i]| < U32Bound
    ensures DeframeMany(Frames(bodies) + rest, |bodies|) == Some((bodies, rest))
  {
    if |bodies| > 0 {
      var tail := Frames(bodies[1..]) + rest;
      var bytes := Frames(bodies) + rest;
      assert bytes == Frame(bodies[0]) + tail;
      FrameRoundTrip(bodies[0], tail);
      assert forall i :: 0 <= i < |bodies[1..]| ==> |bodies[1..][i]| < U32Bound;
      FramesInOrder(bodies[1..], rest);
      assert DeframeMany(bytes, |bodies|) == Some(([bodies[0]] + bodies[1..], rest));
      assert [bodies[0]] + bodies[1..] == bodies;
    } else {
      assert Frames(bodies) + rest == rest;
      assert bodies == [];
    }
  }

  // ---------------------------------------------------------------------
  // The stream

  class Stream {
    /** Bytes the peer has sent that are not read yet. */
    var incoming: seq<byte>
    /** Every byte written so far. */
    var outgoing: seq<byte>
    /** How many more bytes the peer accepts before a write fails. */
    var writable: nat

    constructor (incoming: seq<byte>, writable: nat)
      ensures this.incoming == incoming && outgoing == [] && this.writable == writable
    {
      this.incoming := incoming;
      outgoing := [];
      this.writable := writable;
    }

    /** `write_all`: writes byte after byte until all are out or the peer
        stops accepting; fails in the second case, after a partial write. */
    method WriteAll(buf: seq<byte>) returns (ok: bool)
      modifies this
      ensures ok <==> |buf| <= old(writable)
      ensures outgoing == old(outgoing) + buf[..Min(|buf|, old(writable))]
      ensures writable == old(writable) - Min(|buf|, old(writable))
      ensures incoming == old(incoming)
    {
      var i := 0;
      while i < |buf| && writable > 0
        invariant 0 <= i <= |buf|
        invariant outgoing == old(outgoing) + buf[..i]
        invariant writable + i == old(writable)
        invariant incoming == old(incoming)
      {
        outgoing := outgoing + [buf[i]];
        writable := writable - 1;
        i := i + 1;
      }
      ok := i == |buf|;
    }

    /** `read_exact`: fills `buf` in place from the front of the input; when
        the input runs out first it fails, having consumed everything. */
    method ReadExact(buf: array<byte>) returns (ok: bool)
      modifies this, buf
      ensures ok <==> buf.Length <= |old(incoming)|
      ensures ok ==> buf[..] == old(incoming)[..buf.Length]
      ensures ok ==> incoming == old(incoming)[buf.Length..]
      ensures !ok ==> incoming == []
      ensures outgoing == old(outgoing) && writable == old(writable)
    {
      if |incoming| < buf.Length {
        incoming := [];
        return false;
      }
      var i := 0;
      while i < buf.Length
        invariant 0 <= i <= buf.Length
        invariant buf[..i] == old(incoming)[..i]
        invariant incoming == old(incoming)[i..]
        invariant outgoing == old(outgoing) && writable == old(writable)
      {
        buf[i] := incoming[0];
        incoming := incoming[1..];
        i := i + 1;
      }
      ok := true;
    }
  }

  function IoFailure(kind: IoErrorKind): ErrorItem
  {
    ErrorItem(Io(kind), "")
  }

  const JsonFailure: ErrorItem := ErrorItem(Json, "")

  /** `send_message`: serialize, then write the prefix, then the body. A
      serialization failure writes nothing; a failed prefix write leaves the
      body unwritten; each failure appends one item to `errors`. */
  method SendMessage<T>(stream: Stream, message: T, serialize: T -> Option<seq<byte>>, errors: seq<ErrorItem>)
    returns (r: Result<(), seq<ErrorItem>>)
    modifies stream
    ensures serialize(message).None? ==>
      r == Err(errors + [JsonFailure])
      && stream.outgoing == old(stream.outgoing) && stream.writable == old(stream.writable)
    ensures serialize(message).Some? ==>
      var f := Frame(serialize(message).value);
      && stream.outgoing == old(stream.outgoing) + f[..Min(|f|, old(stream.writable))]
      && (r.Ok? <==> |f| <= old(stream.writable))
      && (r.Err? ==> r.error == errors + [IoFailure(BrokenPipe)])
    ensures stream.incoming == old(stream.incoming)
  {
    var serialized := serialize(message);
    if serialized.None? {
      return Err(errors + [JsonFailure]);
    }
    var body := serialized.value;
    var prefix := LengthPrefix(|body|);
    ghost var f := Frame(body);
    assert f == prefix + body;
    var ok := stream.WriteAll(prefix);
    if !ok {
      assert prefix[..Min(|prefix|, old(stream.writable))] == f[..Min(|f|, old(stream.writable))];
      return Err(errors + [IoFailure(BrokenPipe)]);
    }
    ok := stream.WriteAll(body);
    assert old(stream.outgoing) + prefix + body[..Min(|body|, old(stream.writable) - 4)]
        == old(stream.outgoing) + f[..Min(|f|, old(stream.writable))];
    if !ok {
      return Err(errors + [IoFailure(BrokenPipe)]);
    }
    return Ok(());
  }

  /** `receive_message`: read the 4-byte prefix, then exactly that many body
      bytes, then deserialize. Input that holds no whole frame fails with an
      end-of-file error; a body that does not deserialize fails with a JSON
      error; either way no message is returned. */
  method ReceiveMessage<T>(stream: Stream, deserialize: seq<byte> -> Option<T>, errors: seq<ErrorItem>)
    returns (r: Result<T, seq<ErrorItem>>)
    modifies stream
    ensures Deframe(old(stream.incoming)).None? ==>
      r == Err(errors + [IoFailure(UnexpectedEof)]) && stream.incoming == []
    ensures Deframe(old(stream.incoming)).Some? ==>
      var (body, rest) := Deframe(old(stream.incoming)).value;
      && stream.incoming == rest
      && (deserialize(body).Some? ==> r == Ok(deserialize(body).value))
      && (deserialize(body).None? ==> r == Err(errors + [JsonFailure]))
    ensures stream.outgoing == old(stream.outgoing) && stream.writable == old(stream.writable)
  {
    ghost var input := stream.incoming;
    var lengthBytes := new byte[4](_ => 0);
    var ok := stream.ReadExact(lengthBytes);
    if !ok {
      return Err(errors + [IoFailure(UnexpectedEof)]);
    }
    assert lengthBytes[..] == input[..4];
    var length := FromBigEndian32(lengthBytes[..]);
    var messageBytes := new byte[length](_ => 0);
    ok := stream.ReadExact(messageBytes);
    if !ok {
      return Err(errors + [IoFailure(UnexpectedEof)]);
    }
    assert messageBytes[..] == input[4..4 + length];
    assert stream.incoming == input[4 + length..];
    var message := deserialize(messageBytes[..]);
    if message.None? {
      return Err(errors + [JsonFailure]);
    }
    return Ok(message.value);
  }
}
