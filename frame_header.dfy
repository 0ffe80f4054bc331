/**
 * The wire frame header shared by the encoder (FrameFromPhysicalPeer) and
 * the decoder (PhysicalFromFramePeer): a flag byte holding the frame type in
 * bits 0-5, bit 6 "source id present" and bit 7 "target id present", then
 * the 32-byte source id, the 32-byte target id, and the length as two
 * big-endian bytes.
 */
module FrameHeader {
  import opened Wrappers

  type Byte = x: int | 0 <= x < 256

  /** A peer id on the wire: exactly 32 bytes. */
  type PeerId = s: seq<Byte> | |s| == 32 witness seq(32, _ => 0)

  /** Bit 6 of the flag byte: a source id follows. */
  predicate HasSource(flag: Byte) {
    (flag / 64) % 2 == 1
  }

  /** Bit 7 of the flag byte: a target id follows. */
  predicate HasTarget(flag: Byte) {
    (flag / 128) % 2 == 1
  }

  /**
   * calculateHeader: (frameType + 64 if a source is given + 128 if a target
   * is given) & 0xFF. For a type that fits in 6 bits the byte keeps the type
   * in its low bits and the two presence flags above it.
   */
  function FlagByte(frameType: int, source: Option<PeerId>, target: Option<PeerId>): (b: Byte)
    ensures 0 <= frameType < 64 ==>
      b % 64 == frameType && HasSource(b) == source.Some? && HasTarget(b) == target.Some?
  {
    (frameType + (if source.Some? then 64 else 0) + (if target.Some? then 128 else 0)) % 256
  }

  /** The header bytes that follow the flag byte: the announced ids and the length. */
  function HeaderLength(flag: Byte): (n: nat)
    ensures 2 <= n <= 66
  {
    2 + (if HasSource(flag) then 32 else 0) + (if HasTarget(flag) then 32 else 0)
  }

  function IdBytes(id: Option<PeerId>): (r: seq<Byte>)
    ensures |r| == if id.Some? then 32 else 0
  {
    if id.Some? then id.value else []
  }

  /** putShort((short) (length & 0xFFFF)): the length modulo 2^16, high byte first. */
  function LengthBytes(length: int): (r: seq<Byte>)
    ensures |r| == 2 && (r[0] as int) * 256 + r[1] == length % 65536
  {
    [(length % 65536) / 256, length % 256]
  }

  /** The header the encoder writes for one frame. */
  function EncodeHeader(frameType: int, source: Option<PeerId>, target: Option<PeerId>, length: int): (h: seq<Byte>)
    ensures |h| == 3 + |IdBytes(source)| + |IdBytes(target)|
    ensures h[0] == FlagByte(frameType, source, target)
    ensures 0 <= frameType < 64 ==> |h| == 1 + HeaderLength(h[0])
  {
    [FlagByte(frameType, source, target)] + IdBytes(source) + IdBytes(target) + LengthBytes(length)
  }

  /** What the decoder hands to the frame peer when a header is complete. */
  datatype FrameStart = FrameStart(frameType: Byte, source: Option<PeerId>, target: Option<PeerId>, length: nat)

  /**
   * The decoder's reading of the header bytes after the flag byte: the ids
   * the flag announces, in order, then the unsigned big-endian length. The
   * whole flag byte, presence bits included, is passed on as the type.
   */
  function DecodeHeader(flag: Byte, header: seq<Byte>): (f: FrameStart)
    requires |header| == HeaderLength(flag)
    ensures f.frameType == flag && f.length < 65536
    ensures f.source.Some? == HasSource(flag) && f.target.Some? == HasTarget(flag)
    ensures f.source.Some? ==> f.source.value == header[..32]
    ensures f.target.Some? ==> f.target.value == header[|header| - 34..|header| - 2]
  {
    var source: Option<PeerId> := if HasSource(flag) then Some(header[..32]) else None;
    var targetAt := if HasSource(flag) then 32 else 0;
    var target: Option<PeerId> := if HasTarget(flag) then Some(header[targetAt..targetAt + 32]) else None;
    FrameStart(flag, source, target, (header[|header| - 2] as int) * 256 + header[|header| - 1])
  }

  /**
   * Decoding what the encoder wrote gives back the ids and the length modulo
   * 2^16, and a type byte whose low six bits are the type.
   */
  lemma HeaderRoundTrip(frameType: int, source: Option<PeerId>, target: Option<PeerId>, length: int)
    requires 0 <= frameType < 64
    ensures var h := EncodeHeader(frameType, source, target, length);
      && h[0] % 64 == frameType
      && DecodeHeader(h[0], h[1..]) == FrameStart(h[0], source, target, length % 65536)
  {
    var h := EncodeHeader(frameType, source, target, length);
    var body := h[1..];
    assert body == IdBytes(source) + IdBytes(target) + LengthBytes(length);
    var f := DecodeHeader(h[0], body);
    if source.Some? {
      assert body[..32] == source.value;
    }
    if target.Some? {
      assert body[|body| - 34..|body| - 2] == target.value;
    }
  }
}
