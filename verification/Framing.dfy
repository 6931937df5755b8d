/** How extents travel on a lane: a header and its payload, again and again, and a terminator. */
module Framing {
  import opened Base
  import opened Segments
  import opened Protocol

  // Memory transfers and native file transfers share the layout and differ in the terminator and in what a header may
  // say.

  datatype Dialect = Memory | NativeFile

  datatype Frame = Frame(offset: U64, payload: seq<Byte>)

  datatype Marker = End | Extent(header: ExtentHeader) | Bad

  datatype FrameError = Truncated | Malformed

  /** The frames of a lane, and what the stream holds behind the terminator. */
  datatype Lane = Lane(frames: seq<Frame>, tail: seq<Byte>)

  function Terminator(d: Dialect): ExtentHeader {
    match d
    case Memory => ExtentHeader(0, 0)
    case NativeFile => ExtentHeader(TWO_64 - 1, 0)
  }

  function Decode(d: Dialect, bytes: seq<Byte>): Marker
    requires |bytes| == EXTENT_HEADER_LEN
  {
    match d
    case Memory =>
      (match DecodeExtentHeader(bytes)
       case Ok(header) => if header.IsEnd() then End else Extent(header)
       case Err(_) => Bad)
    case NativeFile =>
      var header := ReadExtentHeader(bytes);
      if header.offset == TWO_64 - 1 then (if header.len == 0 then End else Bad) else Extent(header)
  }

  /**
   * What 16 bytes mean at the beginning of a frame. A memory lane ends with two zeros, a lane of a native file with the
   * largest offset and no length.
   */
  lemma MarkerInBytes(d: Dialect, bytes: seq<Byte>)
    requires |bytes| == 16
    ensures var offset, len := Eight(bytes, 0), Eight(bytes, 8);
            Decode(d, bytes)
            == if d.Memory? then
                 if offset == 0 && len == 0 then End
                 else if len > 0 && offset + len <= 0xFFFF_FFFF_FFFF_FFFF then Extent(ExtentHeader(offset, len))
                 else Bad
               else if offset == 0xFFFF_FFFF_FFFF_FFFF then if len == 0 then End else Bad
               else Extent(ExtentHeader(offset, len))
  {
    ExtentHeaderAccepted(bytes);
  }

  /** The frames that a receiver can tell from a terminator and does not refuse. */
  predicate Sendable(d: Dialect, f: Frame) {
    match d
    case Memory => |f.payload| > 0 && f.offset + |f.payload| < TWO_64
    case NativeFile => f.offset != TWO_64 - 1 && |f.payload| < TWO_64
  }

  function HeaderOfFrame(d: Dialect, f: Frame): ExtentHeader
    requires Sendable(d, f)
  {
    ExtentHeader(f.offset, |f.payload|)
  }

  function FrameWire(d: Dialect, f: Frame): seq<Byte>
    requires Sendable(d, f)
  {
    HeaderOfFrame(d, f).Wire() + f.payload
  }

  predicate AllSendable(d: Dialect, frames: seq<Frame>) {
    forall i | 0 <= i < |frames| :: Sendable(d, frames[i])
  }

  function FramesWire(d: Dialect, frames: seq<Frame>): seq<Byte>
    requires AllSendable(d, frames)
  {
    if frames == [] then Terminator(d).Wire() else FrameWire(d, frames[0]) + FramesWire(d, frames[1..])
  }

  /** The frames up to the terminator, and what comes behind it. */
  function Parse(d: Dialect, stream: seq<Byte>): Result<Lane, FrameError>
    decreases |stream|
  {
    if |stream| < EXTENT_HEADER_LEN then Err(Truncated)
    else
      var rest := stream[EXTENT_HEADER_LEN..];
      match Decode(d, stream[..EXTENT_HEADER_LEN])
      case End => Ok(Lane([], rest))
      case Bad => Err(Malformed)
      case Extent(header) =>
        if |rest| < header.len then Err(Truncated)
        else Prepend([Frame(header.offset, rest[..header.len])], Parse(d, rest[header.len..]))
  }

  function Prepend(frames: seq<Frame>, lane: Result<Lane, FrameError>): Result<Lane, FrameError> {
    match lane
    case Err(e) => Err(e)
    case Ok(Lane(more, tail)) => Ok(Lane(frames + more, tail))
  }

  lemma PrependTwice(a: seq<Frame>, b: seq<Frame>, lane: Result<Lane, FrameError>)
    ensures Prepend([], lane) == lane
    ensures Prepend(a, Prepend(b, lane)) == Prepend(a + b, lane)
  {
    if lane.Ok? {
      assert [] + lane.value.frames == lane.value.frames;
      ConcatAssociative(a, b, lane.value.frames);
    }
  }

  lemma DecodeTerminator(d: Dialect)
    ensures Decode(d, Terminator(d).Wire()) == End
  {
    ExtentHeaderFields(Terminator(d));
  }

  lemma DecodeFrame(d: Dialect, f: Frame)
    requires Sendable(d, f)
    ensures Decode(d, HeaderOfFrame(d, f).Wire()) == Extent(HeaderOfFrame(d, f))
  {
    ExtentHeaderFields(HeaderOfFrame(d, f));
  }

  lemma DecodedMarker(d: Dialect, bytes: seq<Byte>)
    requires |bytes| == EXTENT_HEADER_LEN
    ensures Decode(d, bytes) == End ==> bytes == Terminator(d).Wire()
    ensures forall h: ExtentHeader, payload: seq<Byte> | Decode(d, bytes) == Extent(h) && |payload| == h.len ::
              Sendable(d, Frame(h.offset, payload)) && bytes == HeaderOfFrame(d, Frame(h.offset, payload)).Wire()
  {
    ExtentHeaderWritten(bytes);
  }

  /** Reading one frame off the front. */
  lemma ParseFrame(d: Dialect, f: Frame, more: seq<Byte>)
    requires Sendable(d, f)
    ensures Parse(d, FrameWire(d, f) + more) == Prepend([f], Parse(d, more))
  {
    var header := HeaderOfFrame(d, f);
    ConcatAssociative(header.Wire(), f.payload, more);
    Front(header.Wire(), f.payload + more);
    Front(f.payload, more);
    DecodeFrame(d, f);
  }

  lemma ParseEnd(d: Dialect, tail: seq<Byte>)
    ensures Parse(d, Terminator(d).Wire() + tail) == Ok(Lane([], tail))
  {
    DecodeTerminator(d);
    Front(Terminator(d).Wire(), tail);
  }

  /** Whatever frames are sent come out again, and nothing behind the terminator is taken for a frame. */
  lemma {:induction false} FramesRoundTrip(d: Dialect, frames: seq<Frame>, tail: seq<Byte>)
    requires AllSendable(d, frames)
    ensures Parse(d, FramesWire(d, frames) + tail) == Ok(Lane(frames, tail))
    decreases |frames|
  {
    if frames == [] {
      ParseEnd(d, tail);
    } else {
      var more := FramesWire(d, frames[1..]) + tail;
      FramesRoundTrip(d, frames[1..], tail);
      FirstFrame(d, frames, tail);
      ParseFrame(d, frames[0], more);
      assert frames == [frames[0]] + frames[1..];
    }
  }

  lemma FirstFrame(d: Dialect, frames: seq<Frame>, tail: seq<Byte>)
    requires AllSendable(d, frames) && frames != []
    ensures FramesWire(d, frames) + tail == FrameWire(d, frames[0]) + (FramesWire(d, frames[1..]) + tail)
  {
    ConcatAssociative(FrameWire(d, frames[0]), FramesWire(d, frames[1..]), tail);
  }

  /** A stream that is accepted is the encoding of what was read from it: no two streams mean the same. */
  lemma {:induction false} FramesCanonical(d: Dialect, stream: seq<Byte>)
    requires Parse(d, stream).Ok?
    ensures AllSendable(d, Parse(d, stream).value.frames)
    ensures stream == FramesWire(d, Parse(d, stream).value.frames) + Parse(d, stream).value.tail
    decreases |stream|
  {
    var head, rest := stream[..EXTENT_HEADER_LEN], stream[EXTENT_HEADER_LEN..];
    DecodedMarker(d, head);
    Rejoin(stream, 0, EXTENT_HEADER_LEN);
    match Decode(d, head)
    case End =>
    case Extent(header) =>
      var payload, more := rest[..header.len], rest[header.len..];
      FramesCanonical(d, more);
      Rejoin(rest, 0, header.len);
      var parsed := Parse(d, more).value;
      WireOfMore(d, Frame(header.offset, payload), parsed.frames, parsed.tail);
  }

  lemma WireOfMore(d: Dialect, frame: Frame, more: seq<Frame>, tail: seq<Byte>)
    requires Sendable(d, frame) && AllSendable(d, more)
    ensures AllSendable(d, [frame] + more)
    ensures FramesWire(d, [frame] + more) + tail
         == HeaderOfFrame(d, frame).Wire() + (frame.payload + (FramesWire(d, more) + tail))
  {
    var all := [frame] + more;
    assert all[0] == frame && all[1..] == more;
    ConcatAssociative(FrameWire(d, frame), FramesWire(d, more), tail);
    ConcatAssociative(HeaderOfFrame(d, frame).Wire(), frame.payload, FramesWire(d, more) + tail);
  }

  /** No extent of a file is mistaken for a terminator, or refused, by either kind of receiver. */
  lemma ExtentsAreSendable(d: Dialect, sh: Shape, index: nat, payload: seq<Byte>)
    requires sh.Valid() && index < sh.Count() && |payload| == sh.Len(index)
    ensures sh.Start(index) < TWO_64 && Sendable(d, Frame(sh.Start(index), payload))
  {
    CountBounds(sh, index);
  }

  /** Sends the payload of one extent in blocks of at most `blockBytes` bytes. */
  method SendPayload(payload: seq<Byte>, blockBytes: nat) returns (chunks: seq<seq<Byte>>)
    requires blockBytes > 0
    ensures Flatten(chunks) == payload
    ensures forall k | 0 <= k < |chunks| :: 0 < |chunks[k]| <= blockBytes
  {
    chunks := [];
    var remaining := |payload|;
    while remaining > 0
      invariant 0 <= remaining <= |payload|
      invariant Flatten(chunks) == payload[..|payload| - remaining]
      invariant forall k | 0 <= k < |chunks| :: 0 < |chunks[k]| <= blockBytes
    {
      var count := Min(remaining, blockBytes);
      var position := |payload| - remaining;
      var chunk := payload[position..position + count];
      FlattenSnoc(chunks, chunk);
      CutFurther(payload, position, position + count);
      chunks := chunks + [chunk];
      remaining := remaining - count;
    }
  }

  /** Reads the frames of a lane; the network hands the payload over in pieces of its own choosing. */
  method ReceiveFrames(d: Dialect, stream: seq<Byte>, blockBytes: nat, cuts: nat -> nat)
    returns (r: Result<Lane, FrameError>)
    requires blockBytes > 0
    ensures r == Parse(d, stream)
  {
    var frames: seq<Frame> := [];
    var rest := stream;
    PrependTwice([], [], Parse(d, stream));
    while true
      invariant Parse(d, stream) == Prepend(frames, Parse(d, rest))
      decreases |rest|
    {
      if |rest| < EXTENT_HEADER_LEN {
        return Err(Truncated);
      }
      match Decode(d, rest[..EXTENT_HEADER_LEN]) {
        case Bad =>
          return Err(Malformed);
        case End =>
          assert frames + [] == frames;
          return Ok(Lane(frames, rest[EXTENT_HEADER_LEN..]));
        case Extent(header) =>
          var payload, after := ReceivePayload(rest[EXTENT_HEADER_LEN..], header.len, blockBytes, cuts);
          if payload.None? {
            return Err(Truncated);
          }
          PrependTwice(frames, [Frame(header.offset, payload.value)], Parse(d, after));
          frames := frames + [Frame(header.offset, payload.value)];
          rest := after;
      }
    }
  }

  /** The first `len` bytes of the stream, if it has as many. */
  method ReceivePayload(stream: seq<Byte>, len: nat, blockBytes: nat, cuts: nat -> nat)
    returns (payload: Option<seq<Byte>>, rest: seq<Byte>)
    requires blockBytes > 0
    ensures payload == if len <= |stream| then Some(stream[..len]) else None
    ensures len <= |stream| ==> rest == stream[len..]
  {
    payload, rest := Some([]), stream;
    var position := 0;
    while position < len
      invariant 0 <= position <= len && position <= |stream|
      invariant payload == Some(stream[..position]) && rest == stream[position..]
    {
      if rest == [] {
        return None, rest;
      }
      var count := ChunkLen(Min(len - position, blockBytes), |rest|, cuts(position));
      CutFurther(stream, position, position + count);
      payload := Some(payload.value + rest[..count]);
      rest := rest[count..];
      position := position + count;
    }
  }

  /** A chunk is never empty and never longer than what was asked for. */
  function ChunkLen(asked: nat, there: nat, cut: nat): (n: nat)
    requires asked > 0 && there > 0
    ensures 0 < n <= asked && n <= there
  {
    Min(Min(asked, there), Max(1, cut))
  }
}
