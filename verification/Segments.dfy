/** The exact coverage tracker of a native file transfer (file_transfer.rs). */
module Segments {
  import opened Base

  datatype SegmentState = Pending | Active | Complete

  /** How a file is cut: `total` bytes in segments of `segment` bytes, the last one possibly short. */
  datatype Shape = Shape(total: nat, segment: nat) {
    ghost predicate Valid() {
      0 < total < TWO_64 && 0 < segment < TWO_64
    }

    /** `total.div_ceil(segment)` */
    function Count(): nat
      requires segment > 0
    {
      (total + segment - 1) / segment
    }

    /** Segment 0 starts at 0, and each further one `segment` bytes later. */
    function Start(index: nat): nat {
      if index == 0 then 0 else Start(index - 1) + segment
    }

    function Len(index: nat): int {
      Min(segment, total - Start(index))
    }

    ghost predicate Covers(index: nat, offset: nat, len: nat)
      requires segment > 0
    {
      index < Count() && offset == Start(index) && len == Len(index)
    }
  }

  lemma {:induction false} StartIsProduct(sh: Shape, i: nat)
    ensures sh.Start(i) == i * sh.segment
  {
    if i > 0 {
      StartIsProduct(sh, i - 1);
      assert i * sh.segment == (i - 1) * sh.segment + sh.segment;
    }
  }

  lemma CeilBounds(sh: Shape)
    requires sh.Valid()
    ensures 1 <= sh.Count()
    ensures (sh.Count() - 1) * sh.segment < sh.total <= sh.Count() * sh.segment
  {
    var a := sh.total + sh.segment - 1;
    assert a == (a / sh.segment) * sh.segment + a % sh.segment;
  }

  lemma CountBounds(sh: Shape, index: nat)
    requires sh.Valid()
    ensures index < sh.Count() <==> sh.Start(index) < sh.total
    ensures index < sh.Count() ==> 0 < sh.Len(index) && sh.Start(index) + sh.Len(index) <= sh.total
    ensures 0 < sh.Count() < TWO_64
  {
    var n := sh.Count();
    CeilBounds(sh);
    StartIsProduct(sh, index);
    if index < n {
      MulMonotone(index, n - 1, sh.segment);
    } else {
      MulMonotone(n, index, sh.segment);
    }
    MulMonotone(1, sh.segment, n - 1);
  }

  /** Different segments occupy disjoint byte ranges, in order. */
  lemma SegmentsDisjoint(sh: Shape, i: nat, j: nat)
    requires sh.Valid() && i < j
    ensures sh.Start(i) + sh.Len(i) <= sh.Start(j)
  {
    StartIsProduct(sh, i);
    StartIsProduct(sh, j);
    MulMonotone(i + 1, j, sh.segment);
    assert (i + 1) * sh.segment == i * sh.segment + sh.segment;
  }

  /** The bytes of the Complete segments among the first `n`. */
  ghost function CompletedSum(sh: Shape, states: seq<SegmentState>, n: nat): int
    requires n <= |states|
  {
    if n == 0 then 0
    else CompletedSum(sh, states, n - 1) + if states[n - 1] == Complete then sh.Len(n - 1) else 0
  }

  lemma {:induction false} CompletedSumUpdate(sh: Shape, states: seq<SegmentState>, n: nat, i: nat, v: SegmentState)
    requires n <= |states| && i < |states|
    requires states[i] != Complete
    ensures CompletedSum(sh, states[i := v], n)
         == CompletedSum(sh, states, n) + if i < n && v == Complete then sh.Len(i) else 0
  {
    if n > 0 {
      CompletedSumUpdate(sh, states, n - 1, i, v);
    }
  }

  lemma {:induction false} CompletedSumBound(sh: Shape, states: seq<SegmentState>, n: nat)
    requires sh.Valid() && n <= |states| == sh.Count()
    ensures 0 <= CompletedSum(sh, states, n) <= Min(sh.Start(n), sh.total)
    ensures CompletedSum(sh, states, n) == Min(sh.Start(n), sh.total)
       <==> forall i | 0 <= i < n :: states[i] == Complete
  {
    if n > 0 {
      CompletedSumBound(sh, states, n - 1);
      CountBounds(sh, n - 1);
      assert sh.Start(n) == sh.Start(n - 1) + sh.segment;
    }
  }

  /** The completed byte counter equals the file size exactly when every segment is Complete. */
  lemma CompletedExactlyWhenAllComplete(sh: Shape, states: seq<SegmentState>)
    requires sh.Valid() && |states| == sh.Count()
    ensures CompletedSum(sh, states, |states|) <= sh.total
    ensures CompletedSum(sh, states, |states|) == sh.total <==> forall i | 0 <= i < |states| :: states[i] == Complete
  {
    CompletedSumBound(sh, states, |states|);
    CountBounds(sh, |states|);
  }

  /** Committing one more segment cannot overflow the 64-bit counter. */
  lemma CommitFits(sh: Shape, states: seq<SegmentState>, i: nat)
    requires sh.Valid() && i < |states| == sh.Count() && states[i] != Complete
    ensures CompletedSum(sh, states, |states|) + sh.Len(i) <= sh.total
  {
    CompletedSumUpdate(sh, states, |states|, i, Complete);
    CompletedSumBound(sh, states[i := Complete], |states|);
  }

  lemma StartQuotient(sh: Shape, i: nat)
    requires sh.Valid()
    ensures sh.Start(i) / sh.segment == i && sh.Start(i) % sh.segment == 0
  {
    StartIsProduct(sh, i);
    DivUnique(sh.Start(i), sh.segment, i, 0);
  }

  /** The arithmetic test a request goes through. */
  predicate Aligned(sh: Shape, offset: nat, len: nat)
    requires sh.Valid()
  {
    offset % sh.segment == 0 && offset < sh.total && len == Min(sh.segment, sh.total - offset)
  }

  /** The test passes exactly for the start and length of one whole segment, the one numbered by the quotient. */
  lemma CoversExactly(sh: Shape, i: nat, offset: nat, len: nat)
    requires sh.Valid()
    ensures sh.Covers(i, offset, len) <==> Aligned(sh, offset, len) && i == offset / sh.segment
  {
    CountBounds(sh, i);
    StartQuotient(sh, i);
    if Aligned(sh, offset, len) {
      StartIsProduct(sh, offset / sh.segment);
    }
  }

  lemma UnalignedCoversNothing(sh: Shape, offset: nat, len: nat)
    requires sh.Valid() && !Aligned(sh, offset, len)
    ensures forall i: nat :: !sh.Covers(i, offset, len)
  {
    forall i: nat
      ensures !sh.Covers(i, offset, len)
    {
      CoversExactly(sh, i, offset, len);
    }
  }

  /** The segment that a request for `len` bytes at `offset` names, if it names one exactly. */
  function SegmentAt(sh: Shape, offset: nat, len: nat): (r: Option<nat>)
    requires sh.Valid()
    ensures r.Some? ==> sh.Covers(r.value, offset, len)
    ensures r.None? ==> forall i: nat :: !sh.Covers(i, offset, len)
  {
    if Aligned(sh, offset, len) then
      CoversExactly(sh, offset / sh.segment, offset, len);
      Some(offset / sh.segment)
    else
      UnalignedCoversNothing(sh, offset, len);
      None
  }

  datatype SegmentError = InvalidShape | Unaligned | OutsideFile | WrongLength | AlreadyRequested | NotActive

  class SegmentTracker {
    const shape: Shape
    var states: seq<SegmentState>
    var completedBytes: U64

    ghost predicate Valid()
      reads this
    {
      && shape.Valid()
      && |states| == shape.Count()
      && completedBytes == CompletedSum(shape, states, |states|)
    }

    constructor Init(shape: Shape)
      requires shape.Valid()
      ensures Valid() && this.shape == shape
      ensures completedBytes == 0 && forall i | 0 <= i < |states| :: states[i] == Pending
    {
      this.shape := shape;
      states := seq(shape.Count(), _ => Pending);
      completedBytes := 0;
      new;
      NothingCompleted(shape, states, |states|);
    }

    static lemma {:induction false} NothingCompleted(sh: Shape, states: seq<SegmentState>, n: nat)
      requires n <= |states| && forall i | 0 <= i < n :: states[i] != Complete
      ensures CompletedSum(sh, states, n) == 0
    {
      if n > 0 {
        NothingCompleted(sh, states, n - 1);
      }
    }

    static method New(total: U64, segment: U64) returns (r: Result<SegmentTracker, SegmentError>)
      ensures r.Ok? <==> total > 0 && segment > 0
      ensures r.Ok? ==> fresh(r.value) && r.value.Valid() && r.value.shape == Shape(total, segment)
      ensures r.Ok? ==> forall i | 0 <= i < |r.value.states| :: r.value.states[i] == Pending
    {
      if total == 0 || segment == 0 {
        return Err(InvalidShape);
      }
      var tracker := new SegmentTracker.Init(Shape(total, segment));
      return Ok(tracker);
    }

    /** Granted exactly when the request names one whole segment that nobody holds. */
    method Reserve(offset: U64, len: U64) returns (r: Result<nat, SegmentError>)
      requires Valid()
      modifies this`states
      ensures Valid() && completedBytes == old(completedBytes)
      ensures r.Ok? <==> exists i: nat :: shape.Covers(i, offset, len) && old(states)[i] == Pending
      ensures r.Ok? ==> shape.Covers(r.value, offset, len) && old(states)[r.value] == Pending
      ensures states == if r.Ok? then old(states)[r.value := Active] else old(states)
      ensures r == Err(AlreadyRequested) <==> exists i: nat :: shape.Covers(i, offset, len) && old(states)[i] != Pending
      ensures r == Err(Unaligned) <==> offset % shape.segment != 0
      ensures r == Err(OutsideFile) <==> offset % shape.segment == 0 && offset >= shape.total
    {
      if offset % shape.segment != 0 {
        UnalignedCoversNothing(shape, offset, len);
        return Err(Unaligned);
      }
      if offset >= shape.total {
        UnalignedCoversNothing(shape, offset, len);
        return Err(OutsideFile);
      }
      if len != Min(shape.segment, shape.total - offset) {
        UnalignedCoversNothing(shape, offset, len);
        return Err(WrongLength);
      }
      var index := offset / shape.segment;
      CoversExactly(shape, index, offset, len);
      forall i: nat | shape.Covers(i, offset, len)
        ensures i == index
      {
        CoversExactly(shape, i, offset, len);
      }
      if states[index] != Pending {
        return Err(AlreadyRequested);
      }
      CompletedSumUpdate(shape, states, |states|, index, Active);
      states := states[index := Active];
      return Ok(index);
    }

    /** `len` is the length the lease was granted with. */
    method CompleteSegment(index: nat, len: U64) returns (r: Result<U64, SegmentError>)
      requires Valid()
      requires index < |states| ==> len == shape.Len(index)
      modifies this`states, this`completedBytes
      ensures Valid()
      ensures r.Ok? <==> index < |old(states)| && old(states)[index] == Active
      ensures r.Ok? ==> states == old(states)[index := Complete]
      ensures r.Ok? ==> r.value == completedBytes == old(completedBytes) + len
      ensures r.Err? ==> states == old(states) && completedBytes == old(completedBytes)
    {
      if index >= |states| {
        return Err(OutsideFile);
      }
      if states[index] != Active {
        return Err(NotActive);
      }
      CommitFits(shape, states, index);
      CompletedSumUpdate(shape, states, |states|, index, Complete);
      states := states[index := Complete];
      completedBytes := (completedBytes + len) % TWO_64;
      return Ok(completedBytes);
    }

    method Release(index: nat)
      requires Valid()
      modifies this`states
      ensures Valid() && completedBytes == old(completedBytes)
      ensures states == if index < |old(states)| && old(states)[index] == Active
                        then old(states)[index := Pending] else old(states)
    {
      if index < |states| && states[index] == Active {
        CompletedSumUpdate(shape, states, |states|, index, Pending);
        states := states[index := Pending];
      }
    }

    method IsComplete() returns (r: bool)
      requires Valid()
      ensures r <==> forall i | 0 <= i < |states| :: states[i] == Complete
    {
      CompletedExactlyWhenAllComplete(shape, states);
      r := completedBytes == shape.total;
    }
  }
}
