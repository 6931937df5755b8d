/** The memory transfer benchmark (transfer.rs): four lanes that together carry every extent exactly once. */
module MemoryTransfer {
  import opened Base
  import opened Segments
  import opened Protocol
  import opened Framing
  import opened Coverage

  const LANE_COUNT: U16 := 4
  type LaneId = n: int | 0 <= n < 4

  const BLOCK_SIZE: nat := 0x40_0000
  const EXTENT_SIZE: nat := 0x100_0000

  function ShapeOf(total: nat): (sh: Shape)
    requires 0 < total < TWO_64
    ensures sh.Valid()
  {
    Shape(total, EXTENT_SIZE)
  }

  /** Every multiplication and addition is checked; an overflow ends the lane. */
  function LaneExtent(lane: nat, index: nat, total: U64): Option<ExtentHeader> {
    if index * 4 >= TWO_64 then None
    else if index * 4 + lane >= TWO_64 then None
    else
      var offset := (index * 4 + lane) * EXTENT_SIZE;
      if offset >= TWO_64 || offset >= total then None
      else Some(ExtentHeader(offset, Min(EXTENT_SIZE, total - offset)))
  }

  /** The checks never cut a lane short: it ends exactly behind its last extent. */
  lemma LaneExtentExact(lane: nat, index: nat, total: U64)
    requires total > 0
    ensures var sh, number := ShapeOf(total), 4 * index + lane;
            LaneExtent(lane, index, total) == if number < sh.Count() then Some(HeaderOf(sh, number)) else None
  {
    CountBounds(ShapeOf(total), 4 * index + lane);
    StartIsProduct(ShapeOf(total), 4 * index + lane);
  }

  /** In numbers: extents of 16 MiB, every fourth one on a lane. */
  lemma LaneExtentInBytes(lane: nat, index: nat, total: U64)
    requires total > 0
    ensures var offset := 16_777_216 * (4 * index + lane);
            LaneExtent(lane, index, total)
            == if offset < total then Some(ExtentHeader(offset, Min(16_777_216, total - offset))) else None
  {
  }

  /** The frame that carries extent `number` of the content. */
  function FrameAt(content: seq<Byte>, number: nat): (f: Frame)
    requires 0 < |content| < TWO_64 && number < ShapeOf(|content|).Count()
    ensures Sendable(Memory, f) && HeaderOfFrame(Memory, f) == HeaderOf(ShapeOf(|content|), number)
  {
    var sh := ShapeOf(|content|);
    CountBounds(sh, number);
    Frame(sh.Start(number), content[sh.Start(number)..sh.Start(number) + sh.Len(number)])
  }

  function LaneFrames(content: seq<Byte>, lane: nat, index: nat): (frames: seq<Frame>)
    requires 0 < |content| < TWO_64
    ensures AllSendable(Memory, frames)
    decreases Max(0, ShapeOf(|content|).Count() - index)
  {
    var number := 4 * index + lane;
    if number >= ShapeOf(|content|).Count() then []
    else [FrameAt(content, number)] + LaneFrames(content, lane, index + 1)
  }

  function LaneHeaderOf(lane: U16, total: U64): LaneHeader {
    LaneHeader(lane, LANE_COUNT, total, EXTENT_SIZE)
  }

  lemma {:induction false} ExtentWithin(lane: nat, index: nat, total: U64)
    requires total > 0 && LaneExtent(lane, index, total).Some?
    ensures var header := LaneExtent(lane, index, total).value; header.offset + header.len <= total
    ensures index < ShapeOf(total).Count()
  {
    LaneExtentExact(lane, index, total);
    CountBounds(ShapeOf(total), 4 * index + lane);
  }

  /** The bytes of the lane from item `index` on, with its terminator. */
  function LaneRest(content: seq<Byte>, lane: nat, index: nat): seq<Byte>
    requires 0 < |content| < TWO_64
    decreases Max(0, ShapeOf(|content|).Count() - index)
  {
    match LaneExtent(lane, index, |content|)
    case None => Terminator(Memory).Wire()
    case Some(header) =>
      ExtentWithin(lane, index, |content|);
      header.Wire() + content[header.offset..header.offset + header.len] + LaneRest(content, lane, index + 1)
  }

  function LaneWire(content: seq<Byte>, lane: LaneId): seq<Byte>
    requires 0 < |content| < TWO_64
  {
    LaneHeaderOf(lane, |content|).Wire() + LaneRest(content, lane, 0)
  }

  /** A lane is its frames, one after the other. */
  lemma {:induction false} LaneIsItsFrames(content: seq<Byte>, lane: nat, index: nat)
    requires 0 < |content| < TWO_64
    ensures LaneRest(content, lane, index) == FramesWire(Memory, LaneFrames(content, lane, index))
    decreases Max(0, ShapeOf(|content|).Count() - index)
  {
    LaneExtentExact(lane, index, |content|);
    if 4 * index + lane < ShapeOf(|content|).Count() {
      LaneIsItsFrames(content, lane, index + 1);
      FramesCons(FrameAt(content, 4 * index + lane), LaneFrames(content, lane, index + 1));
    }
  }

  lemma {:induction false} FramesCons(f: Frame, more: seq<Frame>)
    requires Sendable(Memory, f) && AllSendable(Memory, more)
    ensures AllSendable(Memory, [f] + more)
    ensures FramesWire(Memory, [f] + more) == HeaderOfFrame(Memory, f).Wire() + f.payload + FramesWire(Memory, more)
  {
    assert ([f] + more)[0] == f && ([f] + more)[1..] == more;
  }

  method SendExtent(content: seq<Byte>, header: ExtentHeader) returns (out: seq<Byte>)
    requires header.offset + header.len <= |content|
    ensures out == header.Wire() + content[header.offset..header.offset + header.len]
  {
    var chunks := SendPayload(content[header.offset..header.offset + header.len], BLOCK_SIZE);
    out := header.Wire() + Flatten(chunks);
  }

  lemma RestStep(content: seq<Byte>, lane: nat, index: nat, header: ExtentHeader, out: seq<Byte>, sent: seq<Byte>)
    requires 0 < |content| < TWO_64 && LaneExtent(lane, index, |content|) == Some(header)
    requires header.offset + header.len <= |content|
    requires sent == header.Wire() + content[header.offset..header.offset + header.len]
    ensures out + LaneRest(content, lane, index) == (out + sent) + LaneRest(content, lane, index + 1)
  {
    ConcatAssociative(out, sent, LaneRest(content, lane, index + 1));
  }

  /** All extents of the lane, and the terminator. */
  method SendExtents(content: seq<Byte>, lane: LaneId) returns (out: seq<Byte>)
    requires 0 < |content| < TWO_64
    ensures out == LaneRest(content, lane, 0)
  {
    out := [];
    var index := 0;
    var extent := LaneExtent(lane, index, |content|);
    ghost var whole := LaneRest(content, lane, index);
    assert out + whole == whole;
    while extent.Some?
      invariant extent == LaneExtent(lane, index, |content|)
      invariant out + LaneRest(content, lane, index) == whole
      decreases Max(0, ShapeOf(|content|).Count() - index)
    {
      ExtentWithin(lane, index, |content|);
      var header := extent.value;
      var sent := SendExtent(content, header);
      RestStep(content, lane, index, header, out, sent);
      out := out + sent;
      index := index + 1;
      extent := LaneExtent(lane, index, |content|);
    }
    out := out + Terminator(Memory).Wire();
  }

  method SendLane(content: seq<Byte>, lane: LaneId) returns (out: seq<Byte>)
    requires 0 < |content| < TWO_64
    ensures out == LaneWire(content, lane)
  {
    var extents := SendExtents(content, lane);
    out := LaneHeaderOf(lane, |content|).Wire() + extents;
  }

  datatype Received = Received(lane: nat, frames: seq<Frame>)

  /** What one accepted lane delivers: its header names this transfer, and nothing follows its terminator. */
  function ReceiveLane(total: U64, stream: seq<Byte>): (r: Option<Received>)
    ensures r.Some? ==> r.value.lane < 4 && AllSendable(Memory, r.value.frames)
  {
    if |stream| < LANE_HEADER_LEN then None
    else
      match (DecodeLaneHeader(stream[..LANE_HEADER_LEN]), Parse(Memory, stream[LANE_HEADER_LEN..]))
      case (Ok(header), Ok(Lane(frames, tail))) =>
        LaneHeaderCanonical(stream[..LANE_HEADER_LEN]);
        FramesCanonical(Memory, stream[LANE_HEADER_LEN..]);
        if header == LaneHeaderOf(header.laneId, total) && tail == [] then Some(Received(header.laneId, frames))
        else None
      case _ => None
  }

  lemma {:induction false} LaneRoundTrip(content: seq<Byte>, lane: LaneId)
    requires 0 < |content| < TWO_64
    ensures ReceiveLane(|content|, LaneWire(content, lane)) == Some(Received(lane, LaneFrames(content, lane, 0)))
  {
    var header, frames := LaneHeaderOf(lane, |content|), LaneFrames(content, lane, 0);
    LaneHeaderRoundTrip(header);
    LaneIsItsFrames(content, lane, 0);
    Front(header.Wire(), FramesWire(Memory, frames));
    FramesRoundTrip(Memory, frames, []);
    assert FramesWire(Memory, frames) + [] == FramesWire(Memory, frames);
  }

  type Lanes = m: map<nat, seq<Frame>> | forall l | l in m :: l < 4 && AllSendable(Memory, m[l])

  /** The frames by lane identifier; an identifier may come once. */
  function Gather(total: U64, streams: seq<seq<Byte>>): (r: Option<Lanes>)
    ensures r.Some? ==> |r.value.Keys| == |streams|
  {
    if streams == [] then Some(map[])
    else
      var before := Gather(total, streams[..|streams| - 1]);
      var lane := ReceiveLane(total, streams[|streams| - 1]);
      if before.None? || lane.None? || lane.value.lane in before.value then None
      else
        var lanes := before.value[lane.value.lane := lane.value.frames];
        assert lanes.Keys == before.value.Keys + {lane.value.lane};
        Some(lanes)
  }

  function Headers(frames: seq<Frame>): seq<ExtentHeader>
    requires AllSendable(Memory, frames)
  {
    if frames == [] then [] else [HeaderOfFrame(Memory, frames[0])] + Headers(frames[1..])
  }

  function HeadersOn(lanes: Lanes, lane: nat): seq<ExtentHeader> {
    if lane in lanes then Headers(lanes[lane]) else []
  }

  /** All extents received, lane by lane. */
  function ByLane(lanes: Lanes): seq<ExtentHeader> {
    HeadersOn(lanes, 0) + HeadersOn(lanes, 1) + HeadersOn(lanes, 2) + HeadersOn(lanes, 3)
  }

  lemma SameSize<T>(some: set<T>, all: set<T>)
    requires some <= all && |some| == |all|
    ensures some == all
  {
    assert |all - some| == |all| - |some|;
    assert all == some + (all - some);
  }

  lemma FourIdentifiers(ids: set<nat>)
    requires |ids| == 4 && forall l | l in ids :: l < 4
    ensures ids == {0, 1, 2, 3}
  {
    var all: set<nat> := {0, 1, 2, 3};
    assert |all| == 4;
    SameSize(ids, all);
  }

  /** Four accepted streams are the four lanes: the final test of the lane identifiers cannot fail. */
  lemma {:induction false} FourLanes(total: U64, streams: seq<seq<Byte>>)
    requires |streams| == 4
    ensures Gather(total, streams).Some? ==> Gather(total, streams).value.Keys == {0, 1, 2, 3}
  {
    if Gather(total, streams).Some? {
      FourIdentifiers(Gather(total, streams).value.Keys);
    }
  }

  /** The extents in the order in which the coverage tracker gets to see them. */
  ghost predicate Arrives(lanes: Lanes, order: seq<ExtentHeader>) {
    multiset(order) == multiset(ByLane(lanes))
  }

  /** `receive_memory` when the extents of the four streams arrive in this order. */
  ghost predicate Accepts(total: U64, streams: seq<seq<Byte>>, order: seq<ExtentHeader>)
    requires total > 0
  {
    var sh := ShapeOf(total);
    var recorded := RecordAll(sh, seq(sh.Count(), _ => false), order);
    && |streams| == 4
    && Gather(total, streams).Some?
    && Gather(total, streams).value.Keys == {0, 1, 2, 3}
    && recorded.Some?
    && CompletedSum(sh, States(recorded.value), sh.Count()) == total
    && (forall i | 0 <= i < sh.Count() :: recorded.value[i])
    && TotalLen(order) == total
  }

  /**
   * Four well-formed streams are accepted exactly when they carry every extent of the transfer once, and then in
   * whatever order the lanes are read.
   */
  lemma {:induction false} AcceptsExactly(total: U64, streams: seq<seq<Byte>>, order: seq<ExtentHeader>)
    requires total > 0 && |streams| == 4
    ensures var lanes := Gather(total, streams);
            lanes.Some? && Arrives(lanes.value, order) ==>
              (Accepts(total, streams, order) <==> Whole(total, ByLane(lanes.value)))
  {
    FourLanes(total, streams);
    var lanes := Gather(total, streams);
    if lanes.Some? && Arrives(lanes.value, order) {
      WholeInAnyOrder(total, ByLane(lanes.value), order);
    }
  }

  /** Every extent of the transfer, and each one once. */
  ghost predicate Whole(total: U64, headers: seq<ExtentHeader>)
    requires total > 0
  {
    var sh := ShapeOf(total);
    EachOnce(sh, headers) && forall i: nat | i < sh.Count() :: HeaderOf(sh, i) in headers
  }

  lemma {:induction false} WholeInAnyOrder(total: U64, all: seq<ExtentHeader>, order: seq<ExtentHeader>)
    requires total > 0 && multiset(order) == multiset(all)
    ensures var sh := ShapeOf(total);
            var recorded := RecordAll(sh, seq(sh.Count(), _ => false), order);
            Whole(total, all) <==>
              && recorded.Some?
              && CompletedSum(sh, States(recorded.value), sh.Count()) == total
              && (forall i | 0 <= i < sh.Count() :: recorded.value[i])
              && TotalLen(order) == total
  {
    var sh := ShapeOf(total);
    OrderIrrelevant(sh, order, all);
    RecordedExactly(sh, order);
    RecordedExactly(sh, all);
    if EachOnce(sh, order) {
      RecordedBytes(sh, order);
      var seen := RecordAll(sh, seq(sh.Count(), _ => false), order).value;
      CompletedExactlyWhenAllComplete(sh, States(seen));
      assert forall i: nat | i < sh.Count() :: seen[i] <==> HeaderOf(sh, i) in all;
    }
  }

  // ---- what the sender sends is accepted ----

  /** The list holds the extents `lane`, `lane + 4`, ... from `lane + 4 * index` on, each once. */
  ghost predicate Tail(sh: Shape, headers: seq<ExtentHeader>, lane: nat, index: nat)
    requires sh.Valid()
  {
    && EachOnce(sh, headers)
    && (forall i: nat {:trigger HeaderOf(sh, i)} | i < sh.Count() ::
          HeaderOf(sh, i) in headers <==> i % 4 == lane && i / 4 >= index)
    && (forall h | h in headers :: InTail(sh, h, lane, index))
  }

  ghost predicate InTail(sh: Shape, h: ExtentHeader, lane: nat, index: nat)
    requires sh.Valid()
  {
    var at := SegmentAt(sh, h.offset, h.len);
    at.Some? && at.value % 4 == lane && at.value / 4 >= index
  }

  lemma TailGrows(sh: Shape, headers: seq<ExtentHeader>, lane: nat, index: nat)
    requires sh.Valid() && lane < 4 && 4 * index + lane < sh.Count() && Tail(sh, headers, lane, index + 1)
    ensures Tail(sh, [HeaderOf(sh, 4 * index + lane)] + headers, lane, index)
  {
    var number := 4 * index + lane;
    var header := HeaderOf(sh, number);
    HeadersOfSegments(sh, header);
    assert SegmentAt(sh, header.offset, header.len) == Some(number);
    assert !InTail(sh, header, lane, index + 1);
    ConsOnce(sh, header, headers);
    forall i: nat | i < sh.Count()
      ensures HeaderOf(sh, i) in [header] + headers <==> i % 4 == lane && i / 4 >= index
    {
      HeadersOfSegments(sh, HeaderOf(sh, i));
      assert HeaderOf(sh, i) == header <==> i == number;
    }
    forall h | h in [header] + headers
      ensures InTail(sh, h, lane, index)
    {
      assert h in headers ==> InTail(sh, h, lane, index + 1);
    }
  }

  lemma {:induction false} LaneCarries(content: seq<Byte>, lane: nat, index: nat)
    requires 0 < |content| < TWO_64 && lane < 4
    ensures Tail(ShapeOf(|content|), Headers(LaneFrames(content, lane, index)), lane, index)
    decreases Max(0, ShapeOf(|content|).Count() - index)
  {
    var sh, number := ShapeOf(|content|), 4 * index + lane;
    if number < sh.Count() {
      LaneCarries(content, lane, index + 1);
      var first, more := FrameAt(content, number), LaneFrames(content, lane, index + 1);
      assert ([first] + more)[1..] == more;
      TailGrows(sh, Headers(more), lane, index);
    }
  }

  lemma ConsOnce(sh: Shape, first: ExtentHeader, rest: seq<ExtentHeader>)
    requires sh.Valid() && EachOnce(sh, rest) && first !in rest && SegmentAt(sh, first.offset, first.len).Some?
    ensures EachOnce(sh, [first] + rest)
  {
  }

  /** The list holds every extent of these lanes once, and no others. */
  ghost predicate Carries(sh: Shape, headers: seq<ExtentHeader>, lanes: set<nat>)
    requires sh.Valid()
  {
    && EachOnce(sh, headers)
    && (forall i: nat {:trigger HeaderOf(sh, i)} | i < sh.Count() :: HeaderOf(sh, i) in headers <==> i % 4 in lanes)
    && (forall h | h in headers :: OfLane(sh, h, lanes))
  }

  ghost predicate OfLane(sh: Shape, h: ExtentHeader, lanes: set<nat>)
    requires sh.Valid()
  {
    var at := SegmentAt(sh, h.offset, h.len);
    at.Some? && at.value % 4 in lanes
  }

  lemma ConcatCarries(sh: Shape, a: seq<ExtentHeader>, some: set<nat>, b: seq<ExtentHeader>, others: set<nat>)
    requires sh.Valid() && Carries(sh, a, some) && Carries(sh, b, others) && some !! others
    ensures Carries(sh, a + b, some + others)
  {
    forall h | h in a
      ensures h !in b
    {
      assert OfLane(sh, h, some);
      assert h in b ==> OfLane(sh, h, others);
    }
    ConcatOnce(sh, a, b);
    forall h | h in a + b
      ensures OfLane(sh, h, some + others)
    {
      assert h in a ==> OfLane(sh, h, some);
      assert h in b ==> OfLane(sh, h, others);
    }
  }

  lemma ConcatOnce(sh: Shape, a: seq<ExtentHeader>, b: seq<ExtentHeader>)
    requires sh.Valid() && EachOnce(sh, a) && EachOnce(sh, b) && forall h | h in a :: h !in b
    ensures EachOnce(sh, a + b)
  {
    var all := a + b;
    forall j, k | 0 <= j < k < |all|
      ensures all[j] != all[k]
    {
      if j < |a| <= k {
        assert a[j] !in b && b[k - |a|] in b;
      }
    }
  }

  lemma {:induction false} LaneCarriesIts(content: seq<Byte>, lane: nat)
    requires 0 < |content| < TWO_64 && lane < 4
    ensures Carries(ShapeOf(|content|), Headers(LaneFrames(content, lane, 0)), {lane})
  {
    LaneCarries(content, lane, 0);
    TailIsLane(ShapeOf(|content|), Headers(LaneFrames(content, lane, 0)), lane);
  }

  lemma TailIsLane(sh: Shape, headers: seq<ExtentHeader>, lane: nat)
    requires sh.Valid() && Tail(sh, headers, lane, 0)
    ensures Carries(sh, headers, {lane})
  {
    forall h | h in headers
      ensures OfLane(sh, h, {lane})
    {
      assert InTail(sh, h, lane, 0);
    }
  }

  /** The four lanes together carry every extent once. */
  lemma {:induction false} LanesPartition(content: seq<Byte>)
    requires 0 < |content| < TWO_64
    ensures Carries(ShapeOf(|content|), Headers(LaneFrames(content, 0, 0)) + Headers(LaneFrames(content, 1, 0))
                    + Headers(LaneFrames(content, 2, 0)) + Headers(LaneFrames(content, 3, 0)), {0, 1, 2, 3})
  {
    var sh := ShapeOf(|content|);
    var h0, h1, h2, h3 := Headers(LaneFrames(content, 0, 0)), Headers(LaneFrames(content, 1, 0)),
                          Headers(LaneFrames(content, 2, 0)), Headers(LaneFrames(content, 3, 0));
    LaneCarriesIts(content, 0);
    LaneCarriesIts(content, 1);
    ConcatCarries(sh, h0, {0}, h1, {1});
    LaneCarriesIts(content, 2);
    ConcatCarries(sh, h0 + h1, {0} + {1}, h2, {2});
    LaneCarriesIts(content, 3);
    ConcatCarries(sh, h0 + h1 + h2, {0} + {1} + {2}, h3, {3});
    assert {0} + {1} + {2} + {3} == {0, 1, 2, 3};
  }

  lemma {:induction false} EveryExtent(sh: Shape, headers: seq<ExtentHeader>)
    requires sh.Valid() && Carries(sh, headers, {0, 1, 2, 3})
    ensures forall i: nat | i < sh.Count() :: HeaderOf(sh, i) in headers
  {
  }

  function Streams(content: seq<Byte>, ids: seq<LaneId>): seq<seq<Byte>>
    requires 0 < |content| < TWO_64
  {
    if ids == [] then [] else Streams(content, ids[..|ids| - 1]) + [LaneWire(content, ids[|ids| - 1])]
  }

  lemma {:induction false} GatherSnoc(total: U64, streams: seq<seq<Byte>>, last: seq<Byte>)
    ensures Gather(total, streams + [last]) ==
            var before, lane := Gather(total, streams), ReceiveLane(total, last);
            if before.None? || lane.None? || lane.value.lane in before.value then None
            else Some(before.value[lane.value.lane := lane.value.frames])
  {
    assert (streams + [last])[..|streams|] == streams;
  }

  ghost predicate Different(ids: seq<LaneId>) {
    forall i, j | 0 <= i < j < |ids| :: ids[i] != ids[j]
  }

  /** Exactly these lanes were gathered, each with the frames its sender sent. */
  ghost predicate Gathered(content: seq<Byte>, ids: seq<LaneId>, lanes: Lanes)
    requires 0 < |content| < TWO_64
  {
    && (forall l | l in lanes :: l in ids && lanes[l] == LaneFrames(content, l, 0))
    && (forall l | l in ids :: l in lanes)
  }

  ghost predicate SentIsGathered(content: seq<Byte>, ids: seq<LaneId>)
    requires 0 < |content| < TWO_64
  {
    var lanes := Gather(|content|, Streams(content, ids));
    |Streams(content, ids)| == |ids| && lanes.Some? && Gathered(content, ids, lanes.value)
  }

  lemma {:induction false} GatherSent(content: seq<Byte>, ids: seq<LaneId>)
    requires 0 < |content| < TWO_64 && Different(ids)
    ensures SentIsGathered(content, ids)
  {
    if ids != [] {
      var init, last := ids[..|ids| - 1], ids[|ids| - 1];
      assert ids == init + [last];
      GatherSent(content, init);
      OneMoreSent(content, init, last);
    }
  }

  lemma {:induction false} OneMoreSent(content: seq<Byte>, ids: seq<LaneId>, last: LaneId)
    requires 0 < |content| < TWO_64 && last !in ids
    ensures SentIsGathered(content, ids) ==> SentIsGathered(content, ids + [last])
  {
    if !SentIsGathered(content, ids) {
      return;
    }
    assert (ids + [last])[..|ids|] == ids;
    LaneRoundTrip(content, last);
    GatherSnoc(|content|, Streams(content, ids), LaneWire(content, last));
    GatheredMore(content, ids, Gather(|content|, Streams(content, ids)).value, last);
  }

  lemma {:induction false} GatheredMore(content: seq<Byte>, ids: seq<LaneId>, lanes: Lanes, last: LaneId)
    requires 0 < |content| < TWO_64 && last !in ids && Gathered(content, ids, lanes)
    ensures Gathered(content, ids + [last], lanes[last := LaneFrames(content, last, 0)])
  {
  }

  /**
   * The main property of the benchmark: what four senders put on their lanes is accepted, whichever lane is opened
   * first and however their extents arrive.
   */
  lemma {:induction false} SentIsAccepted(content: seq<Byte>, ids: seq<LaneId>, order: seq<ExtentHeader>)
    requires 0 < |content| < TWO_64
    requires |ids| == 4 && Different(ids)
    ensures Gather(|content|, Streams(content, ids)).Some? && |Streams(content, ids)| == 4
    ensures Arrives(Gather(|content|, Streams(content, ids)).value, order) ==>
              Accepts(|content|, Streams(content, ids), order)
  {
    GatherSent(content, ids);
    var streams := Streams(content, ids);
    FourLanes(|content|, streams);
    LanesPartition(content);
    EveryExtent(ShapeOf(|content|), ByLane(Gather(|content|, streams).value));
    if Arrives(Gather(|content|, streams).value, order) {
      AcceptsExactly(|content|, streams, order);
    }
  }
}
