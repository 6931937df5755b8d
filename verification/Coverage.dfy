/** The coverage tracker of a memory transfer (coverage.rs): which extents have been received. */
module Coverage {
  import opened Base
  import opened Segments
  import opened Protocol

  datatype CoverageError = InvalidShape | InvalidExtent | OutOfRange | DuplicateExtent(offset: nat)

  /** A seen extent counts as a complete segment. */
  function States(seen: seq<bool>): (r: seq<SegmentState>)
    ensures |r| == |seen| && forall i | 0 <= i < |seen| :: r[i] == if seen[i] then Complete else Pending
  {
    seq(|seen|, i requires 0 <= i < |seen| => if seen[i] then Complete else Pending)
  }

  /** The segments seen after recording `header`. */
  function Recorded(sh: Shape, seen: seq<bool>, header: ExtentHeader): Option<seq<bool>>
    requires sh.Valid() && |seen| == sh.Count()
  {
    var at := SegmentAt(sh, header.offset, header.len);
    if at.Some? && !seen[at.value] then Some(seen[at.value := true]) else None
  }

  class CoverageTracker {
    const shape: Shape
    var seen: seq<bool>
    var receivedBytes: U64

    ghost predicate Valid()
      reads this
    {
      && shape.Valid()
      && |seen| == shape.Count()
      && receivedBytes == CompletedSum(shape, States(seen), |seen|)
    }

    constructor (total: U64, extent: U64)
      requires total > 0 && extent > 0
      ensures Valid() && shape == Shape(total, extent) && receivedBytes == 0
      ensures forall i | 0 <= i < |seen| :: !seen[i]
    {
      shape := Shape(total, extent);
      seen := seq(Shape(total, extent).Count(), _ => false);
      receivedBytes := 0;
      new;
      SegmentTracker.NothingCompleted(shape, States(seen), |seen|);
    }

    static method New(total: U64, extent: U64) returns (r: Result<CoverageTracker, CoverageError>)
      ensures r.Ok? <==> total > 0 && extent > 0
      ensures r.Ok? ==> fresh(r.value) && r.value.Valid() && r.value.shape == Shape(total, extent)
      ensures r.Ok? ==> r.value.receivedBytes == 0 && forall i | 0 <= i < |r.value.seen| :: !r.value.seen[i]
    {
      if total == 0 || extent == 0 {
        return Err(CoverageError.InvalidShape);
      }
      var tracker := new CoverageTracker(total, extent);
      return Ok(tracker);
    }

    /** Accepts exactly the whole extents that were not seen before. */
    method Record(header: ExtentHeader) returns (r: Result<(), CoverageError>)
      requires Valid()
      modifies this
      ensures Valid()
      ensures r.Ok? <==> Recorded(shape, old(seen), header).Some?
      ensures r.Ok? ==> seen == Recorded(shape, old(seen), header).value
      ensures r.Ok? ==> receivedBytes == old(receivedBytes) + header.len
      ensures r.Err? ==> seen == old(seen) && receivedBytes == old(receivedBytes)
      ensures r == Err(OutOfRange) <==>
                header.offset % shape.segment == 0 && header.len > 0 && header.offset + header.len > shape.total
      ensures r == Err(CoverageError.InvalidExtent) <==>
                || header.offset % shape.segment != 0 || header.len == 0
                || (header.offset + header.len <= shape.total
                    && header.len != Min(shape.segment, shape.total - header.offset))
      ensures r == Err(DuplicateExtent(header.offset)) <==>
                exists i: nat :: shape.Covers(i, header.offset, header.len) && old(seen)[i]
    {
      if header.offset % shape.segment != 0 || header.len == 0 {
        WholeSegmentsOnly();
        return Err(CoverageError.InvalidExtent);
      }
      if header.offset + header.len >= TWO_64 || header.offset + header.len > shape.total {
        WholeSegmentsOnly();
        return Err(OutOfRange);
      }
      if header.len != Min(shape.segment, shape.total - header.offset) {
        WholeSegmentsOnly();
        return Err(CoverageError.InvalidExtent);
      }
      var index := header.offset / shape.segment;
      CoversExactly(shape, index, header.offset, header.len);
      if seen[index] {
        return Err(DuplicateExtent(header.offset));
      }
      OnlyOne(index, header);
      CommitFits(shape, States(seen), index);
      CompletedSumUpdate(shape, States(seen), |seen|, index, Complete);
      assert States(seen[index := true]) == States(seen)[index := Complete];
      seen := seen[index := true];
      receivedBytes := (receivedBytes + header.len) % TWO_64;
      return Ok(());
    }

    lemma WholeSegmentsOnly()
      requires shape.Valid()
      ensures forall i: nat, offset: nat, len: nat | shape.Covers(i, offset, len) ::
                offset % shape.segment == 0 && len > 0 && offset + len <= shape.total
                && len == Min(shape.segment, shape.total - offset)
    {
      forall i: nat, offset: nat, len: nat | shape.Covers(i, offset, len)
        ensures offset % shape.segment == 0 && len > 0 && offset + len <= shape.total
                && len == Min(shape.segment, shape.total - offset)
      {
        CoversExactly(shape, i, offset, len);
        CountBounds(shape, i);
      }
    }

    lemma OnlyOne(index: nat, header: ExtentHeader)
      requires shape.Valid()
      requires shape.Covers(index, header.offset, header.len)
      ensures forall i: nat | shape.Covers(i, header.offset, header.len) :: i == index
    {
      forall i: nat | shape.Covers(i, header.offset, header.len)
        ensures i == index
      {
        CoversExactly(shape, i, header.offset, header.len);
        CoversExactly(shape, index, header.offset, header.len);
      }
    }

    method IsComplete() returns (r: bool)
      requires Valid()
      ensures r <==> forall i | 0 <= i < |seen| :: seen[i]
    {
      CompletedExactlyWhenAllComplete(shape, States(seen));
      r := receivedBytes == shape.total && AllSeen();
    }

    predicate AllSeen()
      reads this
    {
      forall i | 0 <= i < |seen| :: seen[i]
    }
  }

  // ---- many recordings ----

  /** All headers recorded in this order, if each of them is accepted. */
  function RecordAll(sh: Shape, seen: seq<bool>, headers: seq<ExtentHeader>): (r: Option<seq<bool>>)
    requires sh.Valid() && |seen| == sh.Count()
    ensures r.Some? ==> |r.value| == sh.Count()
    decreases |headers|
  {
    if headers == [] then Some(seen)
    else
      var before := RecordAll(sh, seen, headers[..|headers| - 1]);
      if before.None? then None else Recorded(sh, before.value, headers[|headers| - 1])
  }

  /** The header that announces segment `i`. */
  function HeaderOf(sh: Shape, i: nat): ExtentHeader
    requires sh.Valid() && i < sh.Count()
  {
    CountBounds(sh, i);
    ExtentHeader(sh.Start(i), sh.Len(i))
  }

  ghost predicate EachOnce(sh: Shape, headers: seq<ExtentHeader>)
    requires sh.Valid()
  {
    && (forall h | h in headers :: SegmentAt(sh, h.offset, h.len).Some?)
    && (forall j, k | 0 <= j < k < |headers| :: headers[j] != headers[k])
  }

  lemma HeadersOfSegments(sh: Shape, h: ExtentHeader)
    requires sh.Valid()
    ensures var at := SegmentAt(sh, h.offset, h.len); at.Some? ==> at.value < sh.Count() && h == HeaderOf(sh, at.value)
    ensures forall i: nat | i < sh.Count() && h == HeaderOf(sh, i) :: SegmentAt(sh, h.offset, h.len) == Some(i)
  {
    forall i: nat | i < sh.Count() && h == HeaderOf(sh, i)
      ensures SegmentAt(sh, h.offset, h.len) == Some(i)
    {
      CoversExactly(sh, i, h.offset, h.len);
    }
  }

  /**
   * Recording succeeds for a list of extents, in whatever order they arrive, exactly when each is a whole segment
   * of the file and none comes twice; and what has been seen then is what the list names.
   */
  lemma {:induction false} RecordedExactly(sh: Shape, headers: seq<ExtentHeader>)
    requires sh.Valid()
    ensures var end := RecordAll(sh, seq(sh.Count(), _ => false), headers);
            && (end.Some? <==> EachOnce(sh, headers))
            && (end.Some? ==> |end.value| == sh.Count())
            && (end.Some? ==>
                  forall i: nat {:trigger HeaderOf(sh, i)} | i < sh.Count() ::
                    end.value[i] <==> HeaderOf(sh, i) in headers)
    decreases |headers|
  {
    if headers != [] {
      var n := |headers| - 1;
      var init := headers[..n];
      var last := headers[n];
      RecordedExactly(sh, init);
      assert headers == init + [last];
      HeadersOfSegments(sh, last);
      if EachOnce(sh, init) {
        LastOnce(sh, init, last);
      } else {
        assert !EachOnce(sh, headers) by { FrontOnce(sh, init, last); }
      }
    }
  }

  lemma FrontOnce(sh: Shape, init: seq<ExtentHeader>, last: ExtentHeader)
    requires sh.Valid()
    ensures EachOnce(sh, init + [last]) ==> EachOnce(sh, init)
  {
    var headers := init + [last];
    if EachOnce(sh, headers) {
      forall h | h in init
        ensures SegmentAt(sh, h.offset, h.len).Some?
      {
        assert h in headers;
      }
      forall j, k | 0 <= j < k < |init|
        ensures init[j] != init[k]
      {
        assert headers[j] != headers[k];
      }
    }
  }

  lemma LastOnce(sh: Shape, init: seq<ExtentHeader>, last: ExtentHeader)
    requires sh.Valid() && EachOnce(sh, init)
    ensures EachOnce(sh, init + [last]) <==> SegmentAt(sh, last.offset, last.len).Some? && last !in init
  {
    var headers := init + [last];
    assert headers[|init|] == last;
    assert forall j | 0 <= j < |init| :: headers[j] == init[j];
  }

  function TotalLen(headers: seq<ExtentHeader>): nat {
    if headers == [] then 0 else TotalLen(headers[..|headers| - 1]) + headers[|headers| - 1].len
  }

  /** The payload bytes that were counted are the bytes of the extents seen. */
  lemma {:induction false} RecordedBytes(sh: Shape, headers: seq<ExtentHeader>)
    requires sh.Valid()
    requires RecordAll(sh, seq(sh.Count(), _ => false), headers).Some?
    ensures TotalLen(headers)
         == CompletedSum(sh, States(RecordAll(sh, seq(sh.Count(), _ => false), headers).value), sh.Count())
    decreases |headers|
  {
    var none := seq(sh.Count(), _ => false);
    if headers == [] {
      SegmentTracker.NothingCompleted(sh, States(none), sh.Count());
    } else {
      var init, last := headers[..|headers| - 1], headers[|headers| - 1];
      RecordedBytes(sh, init);
      var before := RecordAll(sh, none, init).value;
      var at := SegmentAt(sh, last.offset, last.len).value;
      CompletedSumUpdate(sh, States(before), sh.Count(), at, Complete);
      assert States(before[at := true]) == States(before)[at := Complete];
    }
  }

  lemma {:induction false} OnceEach<T>(list: seq<T>)
    ensures (forall j, k | 0 <= j < k < |list| :: list[j] != list[k])
       <==> forall x | x in list :: multiset(list)[x] <= 1
  {
    if list != [] {
      var init, last := list[..|list| - 1], list[|list| - 1];
      assert list == init + [last];
      OnceEach(init);
      if forall j, k | 0 <= j < k < |list| :: list[j] != list[k] {
        assert forall j, k | 0 <= j < k < |init| :: init[j] == list[j] && init[k] == list[k];
        assert last !in init;
      } else {
        var j, k :| 0 <= j < k < |list| && list[j] == list[k];
        assert multiset(list) == multiset(init) + multiset{last};
        if k < |init| {
          assert init[j] == init[k];
          var x :| x in init && multiset(init)[x] > 1;
          assert x in list && multiset(list)[x] > 1;
        } else {
          assert last in init;
          assert multiset(list)[last] > 1;
        }
      }
      if forall j, k | 0 <= j < k < |list| :: list[j] != list[k] {
        assert multiset(list) == multiset(init) + multiset{last};
      }
    }
  }

  /** Whether a set of extents is accepted does not depend on the order in which the lanes deliver them. */
  lemma OrderIrrelevant(sh: Shape, some: seq<ExtentHeader>, other: seq<ExtentHeader>)
    requires sh.Valid() && multiset(some) == multiset(other)
    ensures EachOnce(sh, some) <==> EachOnce(sh, other)
    ensures RecordAll(sh, seq(sh.Count(), _ => false), some) == RecordAll(sh, seq(sh.Count(), _ => false), other)
  {
    assert forall h :: h in some <==> h in multiset(some);
    assert forall h :: h in other <==> h in multiset(other);
    OnceEach(some);
    OnceEach(other);
    RecordedExactly(sh, some);
    RecordedExactly(sh, other);
    var a := RecordAll(sh, seq(sh.Count(), _ => false), some);
    var b := RecordAll(sh, seq(sh.Count(), _ => false), other);
    if a.Some? {
      forall i: nat | i < sh.Count()
        ensures a.value[i] == b.value[i]
      {
        assert a.value[i] <==> HeaderOf(sh, i) in some;
        assert b.value[i] <==> HeaderOf(sh, i) in other;
      }
      assert a.value == b.value;
    }
  }
}
