/**
 * The sending side of the message layer (network/FramePeerToPeer.java): a
 * message that is sent in parts reserves one message id for its whole life,
 * tags every part with it and gives it back with the last part; a message
 * sent in one piece goes out as a single frame and never uses an id.
 */
module FramePeerToPeer {
  import opened Wrappers
  import opened VarInts
  import opened BitSets
  import opened FrameHeader
  import MessageIds

  /** A call made on the frame peer below, in order. */
  datatype FrameOut =
    | IntermediateFrame(messageId: VarInt, payload: seq<Byte>)
    | LastFrame(messageId: VarInt, payload: seq<Byte>)
    | SingleFrame(payload: seq<Byte>)
    | CloseConnection

  class FramePeerToPeer {
    const messageIds: MessageIds.BitMaskMessageIds
    /** Everything handed to the frame peer. */
    var frames: seq<FrameOut>

    constructor(messageIds: MessageIds.BitMaskMessageIds)
      ensures this.messageIds == messageIds && frames == []
    {
      this.messageIds := messageIds;
      frames := [];
    }

    /** create(): a new message that holds no id yet. */
    method Create() returns (m: OutgoingMessage)
      ensures fresh(m) && m.owner == this && m.messageId.None?
    {
      m := new OutgoingMessage(this);
    }

    /** close() only forwards closeConnection to the frame peer. */
    method Close()
      modifies this
      ensures frames == old(frames) + [CloseConnection]
    {
      frames := frames + [CloseConnection];
    }
  }

  /** The message create() hands out. */
  class OutgoingMessage {
    const owner: FramePeerToPeer
    var messageId: Option<VarInt>

    constructor(owner: FramePeerToPeer)
      ensures this.owner == owner && messageId.None?
    {
      this.owner := owner;
      messageId := None;
    }

    /** The id a message holds, if any, lies in its allocator's range. */
    ghost predicate Valid()
      reads this, owner, owner.messageIds
    {
      && owner.messageIds.Valid()
      && (messageId.Some? ==>
            owner.messageIds.startId.value <= messageId.value.value
                                          <= owner.messageIds.startId.value + owner.messageIds.range)
    }

    /**
     * recieve: the first part reserves an id, later parts reuse it, and each
     * part goes out as an intermediate frame tagged with the id. `waiting`
     * is the state in which the source blocks: no id is free, nothing is sent
     * and nothing changes.
     */
    method Recieve(buffer: seq<Byte>) returns (waiting: bool)
      requires Valid()
      modifies this, owner, owner.messageIds.bits
      ensures Valid()
      ensures old(messageId).Some? ==>
        && !waiting && messageId == old(messageId)
        && owner.frames == old(owner.frames) + [IntermediateFrame(messageId.value, buffer)]
        && owner.messageIds.bits[..] == old(owner.messageIds.bits[..])
      ensures old(messageId).None? ==>
        (waiting <==> LowestClear(old(owner.messageIds.bits[..])) > owner.messageIds.range)
      ensures old(messageId).None? && waiting ==>
        && messageId.None? && owner.frames == old(owner.frames)
        && owner.messageIds.bits[..] == old(owner.messageIds.bits[..])
      ensures old(messageId).None? && !waiting ==>
        && messageId.Some?
        && messageId.value
           == CreateLong(owner.messageIds.startId.value + LowestClear(old(owner.messageIds.bits[..])))
        && owner.messageIds.bits[..]
           == SetBit(old(owner.messageIds.bits[..]), LowestClear(old(owner.messageIds.bits[..])))
        && messageId.value.value !in old(owner.messageIds.Outstanding())
        && owner.messageIds.Outstanding() == old(owner.messageIds.Outstanding()) + {messageId.value.value}
        && owner.frames == old(owner.frames) + [IntermediateFrame(messageId.value, buffer)]
    {
      waiting := false;
      if messageId.None? {
        var reserved := owner.messageIds.ReserveId();
        if reserved.None? {
          return true;
        }
        messageId := reserved;
      }
      owner.frames := owner.frames + [IntermediateFrame(messageId.value, buffer)];
    }

    /**
     * endWith: a message that never sent a part goes out as a single frame
     * and leaves the allocator alone; otherwise the last part carries the
     * message's id and the id is released. The id stays recorded.
     */
    method EndWith(buffer: seq<Byte>)
      requires Valid()
      modifies owner, owner.messageIds.bits
      ensures Valid()
      ensures old(messageId).None? ==>
        && owner.frames == old(owner.frames) + [SingleFrame(buffer)]
        && owner.messageIds.bits[..] == old(owner.messageIds.bits[..])
      ensures old(messageId).Some? ==>
        && owner.frames == old(owner.frames) + [LastFrame(messageId.value, buffer)]
        && owner.messageIds.bits[..]
           == ClearBit(old(owner.messageIds.bits[..]), messageId.value.value - owner.messageIds.startId.value)
        && owner.messageIds.Outstanding() == old(owner.messageIds.Outstanding()) - {messageId.value.value}
    {
      if messageId.None? {
        owner.frames := owner.frames + [SingleFrame(buffer)];
      } else {
        owner.frames := owner.frames + [LastFrame(messageId.value, buffer)];
        var released := owner.messageIds.ReleaseId(messageId.value);
      }
    }
  }

  /**
   * Over an allocator for [10, 19]: a message sent in three parts holds id
   * 10 throughout and frees it at the end, while a one-piece message goes
   * out as a single frame and leaves the allocator empty.
   */
  method PartsShareOneIdScenario() returns (frames: seq<FrameOut>, idFreed: bool)
    ensures frames == [IntermediateFrame(CreateLong(10), [1]), IntermediateFrame(CreateLong(10), [2]),
                       LastFrame(CreateLong(10), [3]), SingleFrame([4])]
    ensures idFreed
  {
    var created := MessageIds.BitMaskMessageIds.Create(CreateLong(10), CreateLong(19));
    var allocator := created.value;
    var peer := new FramePeerToPeer(allocator);
    var message := peer.Create();
    LowestClearOfPrefix(0, 10);
    var waiting := message.Recieve([1]);
    SetLowestOfPrefix(0, 10);
    waiting := message.Recieve([2]);
    message.EndWith([3]);
    assert allocator.bits[..] == Prefix(0, 10) by {
      assert forall j | 0 <= j < 10 :: allocator.bits[j] == Prefix(0, 10)[j];
    }
    var single := peer.Create();
    single.EndWith([4]);
    frames := peer.frames;
    idFreed := allocator.bits[..] == Prefix(0, 10);
  }
}
