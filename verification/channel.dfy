/**
 * One end of a connection, seen one envelope at a time: what
 * `send_message` and `receive_message` amount to once the framing of
 * src/shared/prefix.rs is proved (module Framing). The daemon's dispatcher
 * and the client driver are written against this view.
 */
module Channel {
  import opened Wrappers
  import opened Text
  import opened Protocol
  import opened Framing

  class Connection {
    /** Envelopes the peer has sent that are not received yet; a receive
        past the last one fails (end of stream or a frame that does not
        decode). */
    var inbox: seq<Message>
    /** Every envelope this side has sent, in order. */
    var sent: seq<Message>
    /** Whether the peer still takes envelopes; once it does not, every
        send fails and nothing is written. */
    var peerOpen: bool

    constructor (inbox: seq<Message>, peerOpen: bool)
      ensures this.inbox == inbox && sent == [] && this.peerOpen == peerOpen
    {
      this.inbox := inbox;
      sent := [];
      this.peerOpen := peerOpen;
    }

    /** `send_message` of one envelope. */
    method Send(m: Message) returns (ok: bool)
      modifies this
      ensures ok == peerOpen
      ensures sent == old(sent) + (if peerOpen then [m] else [])
      ensures inbox == old(inbox) && peerOpen == old(peerOpen)
    {
      if peerOpen {
        sent := sent + [m];
      }
      ok := peerOpen;
    }

    /** `receive_message` of one envelope. */
    method Receive() returns (m: Option<Message>)
      modifies this
      ensures old(inbox) == [] ==> m.None? && inbox == []
      ensures old(inbox) != [] ==> m == Some(old(inbox)[0]) && inbox == old(inbox)[1..]
      ensures sent == old(sent) && peerOpen == old(peerOpen)
    {
      if inbox == [] {
        return None;
      }
      m := Some(inbox[0]);
      inbox := inbox[1..];
    }
  }

  /** The serialized bodies of a run of envelopes. */
  function Bodies(msgs: seq<Message>, serialize: Message -> Option<seq<byte>>): (bodies: seq<seq<byte>>)
    requires forall i :: 0 <= i < |msgs| ==> serialize(msgs[i]).Some?
    ensures |bodies| == |msgs|
    ensures forall i :: 0 <= i < |msgs| ==> bodies[i] == serialize(msgs[i]).value
  {
    if |msgs| == 0 then []
    else [serialize(msgs[0]).value] + Bodies(msgs[1..], serialize)
  }

  /** Why the envelope view is sound: when every envelope serializes to
      fewer than 2^32 bytes and deserializes back to itself, the peer
      receives the sent envelopes one by one, in order, and nothing else. */
  lemma EnvelopesArriveInOrder(msgs: seq<Message>, serialize: Message -> Option<seq<byte>>,
                               deserialize: seq<byte> -> Option<Message>)
    requires forall i :: 0 <= i < |msgs| ==> serialize(msgs[i]).Some?
    requires forall i :: 0 <= i < |msgs| ==> |serialize(msgs[i]).value| < U32Bound
    requires forall i :: 0 <= i < |msgs| ==> deserialize(serialize(msgs[i]).value) == Some(msgs[i])
    ensures var bodies := Bodies(msgs, serialize);
      && DeframeMany(Frames(bodies), |msgs|) == Some((bodies, []))
      && forall i :: 0 <= i < |msgs| ==> deserialize(bodies[i]) == Some(msgs[i])
  {
    var bodies := Bodies(msgs, serialize);
    FramesInOrder(bodies, []);
    assert Frames(bodies) + [] == Frames(bodies);
  }
}
