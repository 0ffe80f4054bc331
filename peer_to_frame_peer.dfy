/**
 * The receiving side of the message layer (network/PeerToFramePeer.java, and
 * network/direct/PeerToFramePeer.java, which is the same code line for line):
 * intermediate frames are collected per message id into a message created on
 * the peer above, the last frame ends that message and forgets the id, and a
 * single frame, or a last frame for an id nobody started, is delivered whole.
 */
module PeerToFramePeer {
  import opened VarInts
  import opened FrameHeader

  /**
   * A call made on the peer above, in order. Messages are numbered in the
   * order the peer created them.
   */
  datatype PeerCall =
    | Created(message: nat)                      // peer.create()
    | Part(message: nat, payload: seq<Byte>)     // message.recieve(payload)
    | End(message: nat, payload: seq<Byte>)      // message.endWith(payload)
    | Deliver(payload: seq<Byte>)                // peer.receive(payload)

  class PeerToFramePeer {
    /**
     * The messages map, keyed by the id's value (VarInt equality and hash
     * depend on the value only), holding the number of the stored message.
     */
    var messages: map<nat, nat>
    /** How many messages the peer above has created. */
    var created: nat
    var calls: seq<PeerCall>

    /**
     * Every stored message exists and is still open, no two ids share a
     * message, every call names a created message, and no message is ended
     * twice.
     */
    ghost predicate Valid()
      reads this
    {
      && (forall id | id in messages :: messages[id] < created)
      && (forall id1, id2 | id1 in messages && id2 in messages && id1 != id2 :: messages[id1] != messages[id2])
      && (forall id, i | id in messages && 0 <= i < |calls| :: !(calls[i].End? && calls[i].message == messages[id]))
      && (forall i | 0 <= i < |calls| && !calls[i].Deliver? :: calls[i].message < created)
      && (forall i, j | 0 <= i < j < |calls| && calls[i].End? && calls[j].End? ::
            calls[i].message != calls[j].message)
    }

    constructor()
      ensures Valid() && messages == map[] && created == 0 && calls == []
    {
      messages := map[];
      created := 0;
      calls := [];
    }

    /**
     * messageIntermediateFrame: an unknown id gets a newly created message;
     * the part goes to the message stored for the id.
     */
    method MessageIntermediateFrame(messageId: VarInt, payload: seq<Byte>)
      requires Valid()
      modifies this
      ensures Valid()
      ensures messageId.value in old(messages) ==>
        && messages == old(messages) && created == old(created)
        && calls == old(calls) + [Part(old(messages)[messageId.value], payload)]
      ensures messageId.value !in old(messages) ==>
        && messages == old(messages)[messageId.value := old(created)]
        && created == old(created) + 1
        && calls == old(calls) + [Created(old(created)), Part(old(created), payload)]
    {
      if messageId.value !in messages {
        calls := calls + [Created(created)];
        messages := messages[messageId.value := created];
        created := created + 1;
      }
      calls := calls + [Part(messages[messageId.value], payload)];
    }

    /**
     * messageLastFrame: the message stored for the id is ended with the
     * payload; with no message stored the payload is delivered whole. Either
     * way the id is no longer in the map.
     */
    method MessageLastFrame(messageId: VarInt, payload: seq<Byte>)
      requires Valid()
      modifies this
      ensures Valid()
      ensures messages == old(messages) - {messageId.value} && created == old(created)
      ensures messageId.value in old(messages) ==>
        calls == old(calls) + [End(old(messages)[messageId.value], payload)]
      ensures messageId.value !in old(messages) ==> calls == old(calls) + [Deliver(payload)]
    {
      if messageId.value in messages {
        calls := calls + [End(messages[messageId.value], payload)];
      } else {
        calls := calls + [Deliver(payload)];
      }
      messages := messages - {messageId.value};
    }

    /** messageSingleFrame: delivered whole; the map is not consulted. */
    method MessageSingleFrame(payload: seq<Byte>)
      requires Valid()
      modifies this
      ensures Valid()
      ensures messages == old(messages) && created == old(created)
      ensures calls == old(calls) + [Deliver(payload)]
    {
      calls := calls + [Deliver(payload)];
    }

    /** initiateHandshake: this peer does not take part in handshakes. */
    method InitiateHandshake(protocolName: string, handshake: seq<Byte>)
      modifies this
      ensures unchanged(this)
    {
    }

    /** continueHandshake: ignored. */
    method ContinueHandshake(handshake: seq<Byte>)
      modifies this
      ensures unchanged(this)
    {
    }

    /** closeConnection: ignored; stored messages stay open. */
    method CloseConnection()
      modifies this
      ensures unchanged(this)
    {
    }

    /** renegotiate: ignored. */
    method Renegotiate()
      modifies this
      ensures unchanged(this)
    {
    }

    /** ignoredFrame: ignored. */
    method IgnoredFrame(frameCode: int)
      modifies this
      ensures unchanged(this)
    {
    }

    /** keepAlive: ignored. */
    method KeepAlive()
      modifies this
      ensures unchanged(this)
    {
    }
  }

  /**
   * Two interleaved multi-part messages (ids 5 and 7) are reassembled into
   * two separate messages; a last frame for an id nobody started is
   * delivered whole, and afterwards no message is stored.
   */
  method InterleavedMessagesScenario() returns (calls: seq<PeerCall>, stored: map<nat, nat>)
    ensures calls == [Created(0), Part(0, [1]), Created(1), Part(1, [2]), Part(0, [3]),
                      End(1, [4]), End(0, [5]), Deliver([6])]
    ensures stored == map[]
  {
    var peer := new PeerToFramePeer();
    peer.MessageIntermediateFrame(CreateLong(5), [1]);
    peer.MessageIntermediateFrame(CreateLong(7), [2]);
    peer.MessageIntermediateFrame(CreateLong(5), [3]);
    peer.MessageLastFrame(CreateLong(7), [4]);
    peer.MessageLastFrame(CreateLong(5), [5]);
    peer.MessageLastFrame(CreateLong(9), [6]);
    calls := peer.calls;
    stored := peer.messages;
  }
}
