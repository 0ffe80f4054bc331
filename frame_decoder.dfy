/**
 * The frame decoder: PhysicalFromFramePeer reads the byte stream of a
 * physical peer, gathers a frame header across as many messages as it takes,
 * starts a frame on the frame peer above it once the header is complete, and
 * hands the rest of each message to the active frame until that frame says
 * it is done.
 */
module FrameDecoder {
  import opened Wrappers
  import opened FrameHeader

  /** A call the decoder makes on the frame peer above it, in order. */
  datatype FrameCall =
    | StartFrame(start: FrameStart)   // the frame peer's receive(type, source, target, length)
    | FrameBytes(data: seq<Byte>)     // the active frame's receive(message)
    | CloseFramePeer

  /**
   * The decoder's fields: the type byte held (0 standing for none), the
   * header bytes gathered after it, and whether a frame is active.
   */
  datatype Decoder = Decoder(frameHeader: Byte, header: seq<Byte>, active: bool)

  const Idle := Decoder(0, [], false)

  /** The decoder never holds a complete header, and an active frame holds no header. */
  predicate Consistent(d: Decoder) {
    && |d.header| < HeaderLength(d.frameHeader)
    && (d.active ==> d.frameHeader == 0 && d.header == [])
  }

  datatype HeaderRead = HeaderRead(decoder: Decoder, rest: seq<Byte>, started: seq<FrameCall>)

  /**
   * Reading header bytes with no frame active: take a type byte when none is
   * held, then at most the header bytes still missing; a complete header
   * starts a frame and clears the header state.
   */
  function ReadHeader(d: Decoder, message: seq<Byte>): (r: HeaderRead)
    requires Consistent(d) && !d.active && |message| > 0
    ensures Consistent(r.decoder)
    ensures var fh := if d.frameHeader == 0 then message[0] else d.frameHeader;
      var skip := if d.frameHeader == 0 then 1 else 0;
      var taken := |message| - skip - |r.rest|;
      && 0 <= taken <= HeaderLength(fh) - |d.header|
      && r.rest == message[skip + taken..]
      && (r.rest != [] ==> |d.header| + taken == HeaderLength(fh))
      && (r.decoder.active <==> |d.header| + taken == HeaderLength(fh))
      && (r.decoder.active ==>
            r.started == [StartFrame(DecodeHeader(fh, d.header + message[skip..skip + taken]))])
      && (!r.decoder.active ==>
            r.started == [] && r.decoder == Decoder(fh, d.header + message[skip..skip + taken], false))
  {
    var fh := if d.frameHeader == 0 then message[0] else d.frameHeader;
    var rest := if d.frameHeader == 0 then message[1..] else message;
    var headerLength := HeaderLength(fh);
    var take := if |rest| < headerLength - |d.header| then |rest| else headerLength - |d.header|;
    var header := d.header + rest[..take];
    assert rest[..take] == message[|message| - |rest|..|message| - |rest| + take];
    if |header| == headerLength then
      HeaderRead(Decoder(0, [], true), rest[take..], [StartFrame(DecodeHeader(fh, header))])
    else
      HeaderRead(Decoder(fh, header, false), rest[take..], [])
  }

  /**
   * One receive: an empty message changes nothing; otherwise the header is
   * read when no frame is active, and what is left of the message goes to
   * the active frame, which is closed when it answers `done`.
   */
  function Step(d: Decoder, message: seq<Byte>, done: bool): (r: (Decoder, seq<FrameCall>))
    requires Consistent(d)
    ensures Consistent(r.0)
    ensures |message| == 0 ==> r == (d, [])
    ensures d.active && |message| > 0 ==> r == (d.(active := !done), [FrameBytes(message)])
  {
    if |message| == 0 then (d, [])
    else
      var h := if d.active then HeaderRead(d, message, []) else ReadHeader(d, message);
      assert [] + [FrameBytes(h.rest)] == [FrameBytes(h.rest)];
      if h.decoder.active then (h.decoder.(active := !done), h.started + [FrameBytes(h.rest)])
      else (h.decoder, h.started)
  }

  class PhysicalFromFramePeer {
    var frameHeader: Byte
    var header: seq<Byte>
    var activeFrame: bool
    /** Every call made on the frame peer and its frames. */
    var calls: seq<FrameCall>

    function State(): Decoder
      reads this
    {
      Decoder(frameHeader, header, activeFrame)
    }

    predicate Valid()
      reads this
    {
      Consistent(State())
    }

    constructor()
      ensures Valid() && State() == Idle && calls == []
    {
      frameHeader := 0;
      header := [];
      activeFrame := false;
      calls := [];
    }

    /**
     * Receives one message from the physical peer. `done` is the answer the
     * active frame gives to the bytes it is handed.
     */
    method Receive(message: seq<Byte>, done: bool)
      requires Valid()
      modifies this
      ensures Valid()
      ensures State() == Step(old(State()), message, done).0
      ensures calls == old(calls) + Step(old(State()), message, done).1
    {
      if |message| == 0 {
        return;
      }
      var rest := message;
      if !activeFrame {
        if frameHeader == 0 {
          frameHeader := rest[0];
          rest := rest[1..];
        }
        var headerLength := HeaderLength(frameHeader);
        if |header| < headerLength {
          var take := if |rest| < headerLength - |header| then |rest| else headerLength - |header|;
          header := header + rest[..take];
          rest := rest[take..];
        }
        if |header| == headerLength {
          calls := calls + [StartFrame(DecodeHeader(frameHeader, header))];
          activeFrame := true;
          frameHeader := 0;
          header := [];
        }
      }
      if activeFrame {
        calls := calls + [FrameBytes(rest)];
        if done {
          activeFrame := false;
        }
      }
    }

    /** Closing the physical side closes the frame peer. */
    method Close()
      modifies this
      ensures State() == old(State()) && calls == old(calls) + [CloseFramePeer]
    {
      calls := calls + [CloseFramePeer];
    }
  }

  function Concat(chunks: seq<seq<Byte>>): (r: seq<Byte>)
  {
    if chunks == [] then [] else chunks[0] + Concat(chunks[1..])
  }

  /** Receiving a sequence of messages, the active frame answering `done` each time. */
  function Feed(d: Decoder, chunks: seq<seq<Byte>>, done: bool): (r: (Decoder, seq<FrameCall>))
    requires Consistent(d)
    ensures Consistent(r.0)
    decreases |chunks|
  {
    if chunks == [] then (d, [])
    else
      var s := Step(d, chunks[0], done);
      var f := Feed(s.0, chunks[1..], done);
      (f.0, s.1 + f.1)
  }

  /** A well-formed header: a non-zero type byte followed by the bytes it announces. */
  predicate WellFormed(h: seq<Byte>) {
    |h| > 0 && h[0] != 0 && |h| == 1 + HeaderLength(h[0])
  }

  /** The decoder after the first n bytes of a well-formed header. */
  function Partial(h: seq<Byte>, n: nat): (d: Decoder)
    requires WellFormed(h) && n < |h|
    ensures Consistent(d)
  {
    if n == 0 then Idle else Decoder(h[0], h[1..n], false)
  }

  /** The header bytes gathered once a message carrying the next header bytes is read. */
  lemma GatheredHeader(h: seq<Byte>, n: nat, c: seq<Byte>)
    requires WellFormed(h) && n < |h| && c != [] && n + |c| <= |h| && c == h[n..n + |c|]
    ensures var d := Partial(h, n);
      var rest := if n == 0 then c[1..] else c;
      && (if d.frameHeader == 0 then c[0] else d.frameHeader) == h[0]
      && d.header + rest == h[1..n + |c|]
  {
    if n == 0 {
      assert c[1..] == h[1..|c|];
    } else {
      assert h[1..n] + c == h[1..n + |c|];
    }
  }

  /** A message no longer than the missing header bytes is read entirely. */
  lemma ReadsWholeMessage(d: Decoder, message: seq<Byte>, fh: Byte, skip: nat)
    requires Consistent(d) && !d.active && |message| > 0
    requires fh == (if d.frameHeader == 0 then message[0] else d.frameHeader)
    requires skip == (if d.frameHeader == 0 then 1 else 0)
    requires |d.header| + |message| - skip <= HeaderLength(fh)
    ensures var gathered := d.header + message[skip..];
      ReadHeader(d, message) ==
        if |gathered| == HeaderLength(fh)
        then HeaderRead(Decoder(0, [], true), [], [StartFrame(DecodeHeader(fh, gathered))])
        else HeaderRead(Decoder(fh, gathered, false), [], [])
  {
    var r := ReadHeader(d, message);
    assert r.rest == [];
    assert message[skip..skip + (|message| - skip)] == message[skip..];
  }

  /** A message that carries some of the missing header bytes, but not all, is gathered. */
  lemma StepWithinHeader(h: seq<Byte>, n: nat, c: seq<Byte>, done: bool)
    requires WellFormed(h) && n < |h| && c != [] && n + |c| < |h| && c == h[n..n + |c|]
    ensures Step(Partial(h, n), c, done) == (Partial(h, n + |c|), [])
  {
    GatheredHeader(h, n, c);
    ReadsWholeMessage(Partial(h, n), c, h[0], if n == 0 then 1 else 0);
  }

  /** A message that carries all the missing header bytes completes the header and keeps the rest. */
  lemma ReadsHeaderEnd(d: Decoder, message: seq<Byte>, fh: Byte, skip: nat)
    requires Consistent(d) && !d.active && |message| > 0
    requires fh == (if d.frameHeader == 0 then message[0] else d.frameHeader)
    requires skip == (if d.frameHeader == 0 then 1 else 0)
    requires |d.header| + |message| - skip >= HeaderLength(fh)
    ensures var need := HeaderLength(fh) - |d.header|;
      ReadHeader(d, message) == HeaderRead(Decoder(0, [], true), message[skip + need..],
                                           [StartFrame(DecodeHeader(fh, d.header + message[skip..skip + need]))])
  {
    var r := ReadHeader(d, message);
    assert |d.header| + (|message| - skip - |r.rest|) == HeaderLength(fh);
  }

  /**
   * A message that ends the header starts the frame and hands it the bytes
   * after the header, whatever they are.
   */
  lemma StepCompletesHeader(h: seq<Byte>, n: nat, c: seq<Byte>, p: seq<Byte>, done: bool)
    requires WellFormed(h) && n < |h| && c == h[n..] + p
    ensures Step(Partial(h, n), c, done)
      == (Decoder(0, [], !done), [StartFrame(DecodeHeader(h[0], h[1..])), FrameBytes(p)])
  {
    var d, skip := Partial(h, n), if n == 0 then 1 else 0;
    var need := HeaderLength(h[0]) - |d.header|;
    assert c[0] == h[n];
    ReadsHeaderEnd(d, c, h[0], skip);
    if n == 0 {
      assert need == |h| - 1;
      assert c[skip..skip + need] == h[1..];
      assert d.header + c[skip..skip + need] == h[1..];
    } else {
      assert d.header == h[1..n] && need == |h| - n;
      assert c[skip..skip + need] == h[n..];
      assert h[1..n] + h[n..] == h[1..];
    }
    assert c[skip + need..] == p;
    var start := StartFrame(DecodeHeader(h[0], h[1..]));
    assert ReadHeader(d, c) == HeaderRead(Decoder(0, [], true), p, [start]);
    assert [start] + [FrameBytes(p)] == [start, FrameBytes(p)];
  }

  /** Messages that carry no bytes leave the decoder as it is. */
  lemma {:induction false} FeedNothing(d: Decoder, chunks: seq<seq<Byte>>, done: bool)
    requires Consistent(d) && Concat(chunks) == []
    ensures Feed(d, chunks, done) == (d, [])
    decreases |chunks|
  {
    if chunks != [] {
      assert chunks[0] == [];
      FeedNothing(d, chunks[1..], done);
    }
  }

  /**
   * However the rest of a well-formed header is split into messages, the
   * decoder starts exactly one frame, with the decoded header, and hands it
   * the (empty) remainder of the message that completed the header.
   */
  lemma {:induction false} FeedHeader(h: seq<Byte>, n: nat, chunks: seq<seq<Byte>>, done: bool)
    requires WellFormed(h) && n < |h| && Concat(chunks) == h[n..]
    ensures Feed(Partial(h, n), chunks, done)
      == (Decoder(0, [], !done), [StartFrame(DecodeHeader(h[0], h[1..])), FrameBytes([])])
    decreases |chunks|
  {
    assert |Concat(chunks)| > 0;
    var c, rest := chunks[0], chunks[1..];
    assert c + Concat(rest) == h[n..];
    if |c| >= |h| - n {
      assert |Concat(rest)| == 0;
      assert c == h[n..];
      FeedEndsHeader(h, n, chunks, done);
    } else {
      var n' := n + |c|;
      assert c == h[n..n'] && Concat(rest) == h[n'..] by {
        assert c == (c + Concat(rest))[..|c|];
        assert Concat(rest) == (c + Concat(rest))[|c|..];
      }
      var f := Feed(Partial(h, n'), rest, done);
      if c == [] {
        assert Step(Partial(h, n), c, done) == (Partial(h, n'), []);
      } else {
        StepWithinHeader(h, n, c, done);
      }
      FeedHeader(h, n', rest, done);
      assert Feed(Partial(h, n), chunks, done) == (f.0, [] + f.1);
      assert [] + f.1 == f.1;
    }
  }

  /** The message that ends the header, followed by messages with no bytes. */
  lemma FeedEndsHeader(h: seq<Byte>, n: nat, chunks: seq<seq<Byte>>, done: bool)
    requires WellFormed(h) && n < |h| && chunks != [] && chunks[0] == h[n..] && Concat(chunks[1..]) == []
    ensures Feed(Partial(h, n), chunks, done)
      == (Decoder(0, [], !done), [StartFrame(DecodeHeader(h[0], h[1..])), FrameBytes([])])
  {
    var s := Step(Partial(h, n), chunks[0], done);
    assert chunks[0] == h[n..] + [];
    StepCompletesHeader(h, n, chunks[0], [], done);
    FeedNothing(s.0, chunks[1..], done);
    assert s.1 + [] == s.1;
  }

  /**
   * Decoding what the encoder wrote, split into messages in any way, starts
   * one frame with the encoded ids and the length modulo 2^16, provided the
   * flag byte is not zero (a zero byte reads as "no type byte held").
   */
  lemma ChunkedHeaderRoundTrip(frameType: int, source: Option<PeerId>, target: Option<PeerId>,
                               length: int, chunks: seq<seq<Byte>>, done: bool)
    requires 0 <= frameType < 64 && FlagByte(frameType, source, target) != 0
    requires Concat(chunks) == EncodeHeader(frameType, source, target, length)
    ensures var flag := FlagByte(frameType, source, target);
      && flag % 64 == frameType
      && Feed(Idle, chunks, done)
         == (Decoder(0, [], !done), [StartFrame(FrameStart(flag, source, target, length % 65536)), FrameBytes([])])
  {
    var h := EncodeHeader(frameType, source, target, length);
    HeaderRoundTrip(frameType, source, target, length);
    FeedHeader(h, 0, chunks, done);
  }

  /** The decoder with a frame active and no header state. */
  const Receiving := Decoder(0, [], true)

  /** Every call hands bytes to the active frame. */
  predicate OnlyBytes(calls: seq<FrameCall>) {
    forall i | 0 <= i < |calls| :: calls[i].FrameBytes?
  }

  /** The bytes handed to frames, in order. */
  function Delivered(calls: seq<FrameCall>): seq<Byte> {
    if calls == [] then [] else (if calls[0].FrameBytes? then calls[0].data else []) + Delivered(calls[1..])
  }

  /** While the frame keeps asking for more, every message goes to it whole. */
  lemma {:induction false} FeedActive(chunks: seq<seq<Byte>>)
    ensures var r := Feed(Receiving, chunks, false);
      r.0 == Receiving && OnlyBytes(r.1) && Delivered(r.1) == Concat(chunks)
    decreases |chunks|
  {
    if chunks != [] {
      var s := Step(Receiving, chunks[0], false);
      FeedActive(chunks[1..]);
      var f := Feed(Receiving, chunks[1..], false);
      assert Feed(Receiving, chunks, false) == (f.0, s.1 + f.1);
      if chunks[0] == [] {
        assert s == (Receiving, []);
        assert [] + f.1 == f.1;
      } else {
        assert s == (Receiving, [FrameBytes(chunks[0])]);
        var t := [FrameBytes(chunks[0])] + f.1;
        assert t[0] == FrameBytes(chunks[0]) && t[1..] == f.1;
      }
    }
  }

  /** Splitting a message stream after a prefix that the first message covers. */
  lemma SplitAfter(c: seq<Byte>, rest: seq<Byte>, x: seq<Byte>, y: seq<Byte>)
    requires c + rest == x + y && |c| >= |x|
    ensures c == x + c[|x|..] && c[|x|..] + rest == y
  {
    assert c[..|x|] == (c + rest)[..|x|] == x;
    assert c[|x|..] + rest == (c + rest)[|x|..];
  }

  /** Splitting a message stream inside a prefix that the first message does not cover. */
  lemma SplitBefore(c: seq<Byte>, rest: seq<Byte>, x: seq<Byte>, y: seq<Byte>)
    requires c + rest == x + y && |c| < |x|
    ensures c == x[..|c|] && rest == x[|c|..] + y
  {
    assert c == (c + rest)[..|c|];
    assert rest == (c + rest)[|c|..];
  }

  /** A frame start, then bytes p, then bytes only. */
  lemma StartThenBytes(start: FrameCall, p: seq<Byte>, t: seq<FrameCall>)
    requires OnlyBytes(t)
    ensures var l := [start, FrameBytes(p)] + t;
      l[0] == start && OnlyBytes(l[1..]) && Delivered(l[1..]) == p + Delivered(t)
  {
    var l := [start, FrameBytes(p)] + t;
    var u := [FrameBytes(p)] + t;
    assert l[1..] == u;
    assert u[0] == FrameBytes(p) && u[1..] == t;
  }

  /** The message that ends the header, with payload after it, then payload only. */
  lemma FeedFrameEnd(h: seq<Byte>, n: nat, chunks: seq<seq<Byte>>, payload: seq<Byte>)
    requires WellFormed(h) && n < |h| && chunks != [] && |chunks[0]| >= |h| - n
    requires chunks[0] + Concat(chunks[1..]) == h[n..] + payload
    ensures var r := Feed(Partial(h, n), chunks, false);
      && r.0 == Receiving
      && |r.1| > 0 && r.1[0] == StartFrame(DecodeHeader(h[0], h[1..]))
      && OnlyBytes(r.1[1..]) && Delivered(r.1[1..]) == payload
  {
    var c, rest := chunks[0], chunks[1..];
    SplitAfter(c, Concat(rest), h[n..], payload);
    var p := c[|h| - n..];
    StepCompletesHeader(h, n, c, p, false);
    FeedActive(rest);
    var f := Feed(Receiving, rest, false);
    var start := StartFrame(DecodeHeader(h[0], h[1..]));
    assert Feed(Partial(h, n), chunks, false) == (f.0, [start, FrameBytes(p)] + f.1);
    StartThenBytes(start, p, f.1);
  }

  /**
   * However the rest of a well-formed header and the payload after it are
   * split into messages, while the frame keeps asking for more: one frame is
   * started with the decoded header, every later call hands bytes to it,
   * those bytes are exactly the payload, and the frame stays active.
   */
  lemma {:induction false} FeedFrame(h: seq<Byte>, n: nat, chunks: seq<seq<Byte>>, payload: seq<Byte>)
    requires WellFormed(h) && n < |h| && Concat(chunks) == h[n..] + payload
    ensures var r := Feed(Partial(h, n), chunks, false);
      && r.0 == Receiving
      && |r.1| > 0 && r.1[0] == StartFrame(DecodeHeader(h[0], h[1..]))
      && OnlyBytes(r.1[1..]) && Delivered(r.1[1..]) == payload
    decreases |chunks|
  {
    assert |Concat(chunks)| > 0;
    var c, rest := chunks[0], chunks[1..];
    assert c + Concat(rest) == h[n..] + payload;
    if |c| >= |h| - n {
      FeedFrameEnd(h, n, chunks, payload);
    } else {
      SplitBefore(c, Concat(rest), h[n..], payload);
      var n' := n + |c|;
      assert h[n..][..|c|] == h[n..n'] && h[n..][|c|..] == h[n'..];
      var f := Feed(Partial(h, n'), rest, false);
      if c == [] {
        assert Step(Partial(h, n), c, false) == (Partial(h, n'), []);
      } else {
        StepWithinHeader(h, n, c, false);
      }
      FeedFrame(h, n', rest, payload);
      assert Feed(Partial(h, n), chunks, false) == (f.0, [] + f.1);
      assert [] + f.1 == f.1;
    }
  }

  /**
   * Decoding what the encoder wrote followed by the frame's payload, split
   * into messages in any way, with a frame that keeps asking for more: one
   * frame starts with the encoded ids and the length modulo 2^16, then the
   * frame receives exactly the payload, provided the flag byte is not zero.
   */
  lemma ChunkedFrameRoundTrip(frameType: int, source: Option<PeerId>, target: Option<PeerId>,
                              length: int, payload: seq<Byte>, chunks: seq<seq<Byte>>)
    requires 0 <= frameType < 64 && FlagByte(frameType, source, target) != 0
    requires Concat(chunks) == EncodeHeader(frameType, source, target, length) + payload
    ensures var flag := FlagByte(frameType, source, target);
      var r := Feed(Idle, chunks, false);
      && flag % 64 == frameType
      && r.0 == Receiving
      && |r.1| > 0 && r.1[0] == StartFrame(FrameStart(flag, source, target, length % 65536))
      && OnlyBytes(r.1[1..]) && Delivered(r.1[1..]) == payload
  {
    var h := EncodeHeader(frameType, source, target, length);
    HeaderRoundTrip(frameType, source, target, length);
    assert h[0..] == h;
    FeedFrame(h, 0, chunks, payload);
  }

  /** Within one message a type-0 header is read like any other. */
  lemma ZeroTypeByteInOneMessage(a: Byte, b: Byte, done: bool)
    ensures Step(Idle, [0, a, b], done)
      == (Decoder(0, [], !done), [StartFrame(FrameStart(0, None, None, (a as int) * 256 + b)), FrameBytes([])])
  {
    assert HeaderLength(0) == 2;
    assert ReadHeader(Idle, [0, a, b])
      == HeaderRead(Decoder(0, [], true), [], [StartFrame(DecodeHeader(0, [a, b]))]);
    var start := StartFrame(FrameStart(0, None, None, (a as int) * 256 + b));
    assert DecodeHeader(0, [a, b]) == start.start;
    assert [start] + [FrameBytes([])] == [start, FrameBytes([])];
  }

  /**
   * A zero byte where a type byte is expected is indistinguishable from "no
   * type byte held": when the message ends right after it the decoder
   * forgets it, and when the message ends inside the header the next
   * message's first byte is taken as a new type byte.
   */
  lemma ZeroTypeByteAcrossMessages(a: Byte, b: Byte, done: bool)
    requires b != 0
    ensures Step(Idle, [0], done) == (Idle, [])
    ensures Step(Idle, [0, a], done) == (Decoder(0, [a], false), [])
    ensures Step(Decoder(0, [a], false), [b], done) == (Decoder(b, [a], false), [])
  {
    assert HeaderLength(0) == 2;
    assert ReadHeader(Idle, [0]) == HeaderRead(Idle, [], []);
    assert ReadHeader(Idle, [0, a]) == HeaderRead(Decoder(0, [a], false), [], []);
    assert ReadHeader(Decoder(0, [a], false), [b]) == HeaderRead(Decoder(b, [a], false), [], []);
  }
}
