/**
 * The frame encoder: FrameFromPhysicalPeer turns the frames a frame peer is
 * given into bytes on a physical peer. Each frame writes one header, then
 * at most its announced length of payload, and only one frame may be open
 * at a time.
 */
module FrameEncoder {
  import opened Wrappers
  import opened FrameHeader

  /** A call made on the underlying physical peer, in order. */
  datatype PhysicalCall = Send(data: seq<Byte>) | ClosePeer

  function Min(a: int, b: int): (m: int)
    ensures m <= a && m <= b && (m == a || m == b)
  {
    if a <= b then a else b
  }

  /**
   * The part of a buffer that a frame with `remaining` bytes still to go
   * forwards: nothing once the frame is full, otherwise the buffer cut down
   * to the bytes still owed.
   */
  function Cut(remaining: int, buffer: seq<Byte>): (r: seq<Byte>)
    ensures remaining <= 0 ==> r == []
    ensures remaining > 0 ==> |r| == Min(remaining, |buffer|) && r == buffer[..|r|]
  {
    if remaining <= 0 then []
    else if remaining < |buffer| then buffer[..remaining]
    else buffer
  }

  /** The remaining length after a frame receives a buffer. */
  function After(remaining: int, buffer: seq<Byte>): int {
    if remaining > 0 then remaining - |buffer| else remaining
  }

  class FrameFromPhysicalPeer {
    /** Whether a frame handed out by this peer has not been closed yet. */
    var frameActive: bool
    /** Everything written to, and done to, the physical peer. */
    var sent: seq<PhysicalCall>

    constructor()
      ensures !frameActive && sent == []
    {
      frameActive := false;
      sent := [];
    }

    /**
     * Opens a frame: writes its header and hands out a frame limited to
     * `length` bytes. While another frame is open the call is refused
     * (None stands for the IllegalStateException) and nothing is written.
     */
    method Receive(frameType: int, source: Option<PeerId>, target: Option<PeerId>, length: int)
      returns (frame: Option<LimitedFrame>)
      modifies this
      ensures old(frameActive) ==> frame.None? && frameActive && sent == old(sent)
      ensures !old(frameActive) ==>
        && frame.Some? && fresh(frame.value)
        && frame.value.owner == this
        && frame.value.length == length && frame.value.remainingLength == length
        && frameActive
        && sent == old(sent) + [Send(EncodeHeader(frameType, source, target, length))]
    {
      if frameActive {
        return None;
      }
      frameActive := true;
      var header := [FlagByte(frameType, source, target)];
      if source.Some? {
        header := header + source.value;
      }
      if target.Some? {
        header := header + target.value;
      }
      assert header == [FlagByte(frameType, source, target)] + IdBytes(source) + IdBytes(target);
      header := header + LengthBytes(length);
      sent := sent + [Send(header)];
      var f := new LimitedFrame(this, length);
      frame := Some(f);
    }

    /** Closing the frame peer closes the physical peer. */
    method Close()
      modifies this
      ensures sent == old(sent) + [ClosePeer] && frameActive == old(frameActive)
    {
      sent := sent + [ClosePeer];
    }
  }

  class LimitedFrame {
    const owner: FrameFromPhysicalPeer
    const length: int
    var remainingLength: int

    constructor(owner: FrameFromPhysicalPeer, length: int)
      ensures this.owner == owner && this.length == length && remainingLength == length
    {
      this.owner := owner;
      this.length := length;
      remainingLength := length;
    }

    /**
     * Forwards a payload buffer, cut to the bytes the frame still owes. The
     * answer is whether bytes are still owed afterwards; a frame that owes
     * nothing forwards nothing and answers true.
     */
    method Receive(buffer: seq<Byte>) returns (more: bool)
      modifies this, owner
      ensures remainingLength == After(old(remainingLength), buffer)
      ensures old(remainingLength) <= 0 ==> more && owner.sent == old(owner.sent)
      ensures old(remainingLength) > 0 ==>
        && more == (remainingLength > 0)
        && owner.sent == old(owner.sent) + [Send(Cut(old(remainingLength), buffer))]
      ensures owner.frameActive == old(owner.frameActive)
    {
      if remainingLength > 0 {
        var cooked := buffer;
        remainingLength := remainingLength - |buffer|;
        if remainingLength < 0 {
          cooked := buffer[..|buffer| + remainingLength];
        }
        owner.sent := owner.sent + [Send(cooked)];
        more := remainingLength > 0;
      } else {
        more := true;
      }
    }

    /** Closing the frame lets the owner open the next one. */
    method Close()
      modifies owner
      ensures !owner.frameActive && owner.sent == old(owner.sent)
    {
      owner.frameActive := false;
    }
  }

  function Concat(buffers: seq<seq<Byte>>): (r: seq<Byte>)
  {
    if buffers == [] then [] else buffers[0] + Concat(buffers[1..])
  }

  /** The payload bytes a frame forwards over successive buffers. */
  function Forwarded(remaining: int, buffers: seq<seq<Byte>>): (r: seq<Byte>)
  {
    if buffers == [] then []
    else Cut(remaining, buffers[0]) + Forwarded(After(remaining, buffers[0]), buffers[1..])
  }

  /**
   * However the payload is split into buffers, a frame of length n forwards
   * exactly the first n bytes of it (all of it when shorter, none when n is
   * not positive).
   */
  lemma {:induction false} ForwardsExactlyLength(remaining: int, buffers: seq<seq<Byte>>)
    ensures var all := Concat(buffers);
      Forwarded(remaining, buffers) == all[..Min(if remaining < 0 then 0 else remaining, |all|)]
  {
    if buffers == [] {
    } else {
      var b, rest := buffers[0], buffers[1..];
      var next := After(remaining, b);
      ForwardsExactlyLength(next, rest);
      var all := Concat(buffers);
      assert all == b + Concat(rest);
      if remaining <= 0 {
        assert Forwarded(remaining, buffers) == Forwarded(next, rest);
      } else if remaining <= |b| {
        assert all[..remaining] == b[..remaining];
      } else {
        var tail := Concat(rest);
        var k := Min(next, |tail|);
        assert Forwarded(remaining, buffers) == b + tail[..k];
        assert all[..|b| + k] == b + tail[..k];
      }
    }
  }

  /**
   * The frame peer refuses a second frame while one is open, and accepts
   * again once the open frame is closed; a frame of length 3 fed 2 then 2
   * bytes forwards 2 and then 1.
   */
  method AtomicFramesScenario() returns (second: bool, third: bool, log: seq<PhysicalCall>)
    ensures !second && third
    ensures log == [Send([5, 0, 3]), Send([7, 8]), Send([9]), Send([6, 0, 0])]
  {
    var peer := new FrameFromPhysicalPeer();
    var f1 := peer.Receive(5, None, None, 3);
    assert FlagByte(5, None, None) == 5 && FlagByte(6, None, None) == 6;
    assert LengthBytes(3) == [0, 3] && LengthBytes(0) == [0, 0];
    assert EncodeHeader(5, None, None, 3) == [5, 0, 3];
    assert EncodeHeader(6, None, None, 0) == [6, 0, 0];
    var f2 := peer.Receive(6, None, None, 0);
    second := f2.Some?;
    assert peer.sent == [Send([5, 0, 3])];
    var frame := f1.value;
    var more := frame.Receive([7, 8]);
    assert more;
    more := frame.Receive([9, 10]);
    assert !more;
    assert Cut(1, [9, 10]) == [9];
    assert peer.sent == [Send([5, 0, 3]), Send([7, 8]), Send([9])];
    frame.Close();
    var f3 := peer.Receive(6, None, None, 0);
    third := f3.Some?;
    log := peer.sent;
  }
}
