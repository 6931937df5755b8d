/** The fixed assignment of extents to the lanes of a WebTransport file transfer. */
module LaneAssignment {
  import opened Base
  import opened Segments

  // Six connections of four lanes each walk through the file with a stride of 24 extents; nothing but the segment
  // tracker coordinates them, so a schedule is any interleaving of the 24 lanes.

  const STRIDE: nat := 24
  const EXTENT: nat := 0x400_0000

  /** The number of extents whose offsets a 64-bit integer can tell apart. */
  const WRAP: nat := 0x40_0000_0000

  /** The largest file for which no lane computes an offset beyond 64 bits. */
  const LARGEST: nat := TWO_64 - STRIDE * EXTENT

  /** The extent index of item `k` of a lane; `lane` is `connection_index * 4 + lane_index`. */
  function Item(lane: nat, k: nat): nat {
    lane + STRIDE * k
  }

  /** The multiplication is on `u64` and wraps. */
  function Offset(lane: nat, k: nat): U64 {
    (Item(lane, k) * EXTENT) % TWO_64
  }

  datatype Phase = Between | Streaming(index: nat) | Ended | Refused

  datatype State = State(shape: Shape, states: seq<SegmentState>, taken: seq<nat>, phase: seq<Phase>)

  datatype Action = Next(lane: nat) | Commit(lane: nat)

  function Initial(total: U64): State
    requires total > 0
  {
    var shape := Shape(total, EXTENT);
    State(shape, seq(shape.Count(), _ => Pending), seq(STRIDE, _ => 0), seq(STRIDE, _ => Between))
  }

  /** `begin_webtransport_extent`: the lane check, then the reservation. */
  function Begin(s: State, lane: nat, offset: nat, len: nat): Option<nat>
    requires s.shape.Valid() && |s.states| == s.shape.Count()
  {
    if (offset / EXTENT) % STRIDE != lane then None
    else
      var found := SegmentAt(s.shape, offset, len);
      if found.Some? && s.states[found.value] == Pending then found else None
  }

  /** One step of a lane: ask for its next item or end, or hand over the extent it is streaming. */
  function Apply(s: State, a: Action): State
    requires WellShaped(s) && a.lane < STRIDE
  {
    match (a, s.phase[a.lane])
    case (Next(lane), Between) =>
      var offset := Offset(lane, s.taken[lane]);
      if offset >= s.shape.total then s.(phase := s.phase[lane := Ended])
      else
        var granted := Begin(s, lane, offset, Min(EXTENT, s.shape.total - offset));
        if granted.None? then s.(phase := s.phase[lane := Refused])
        else
          s.(states := s.states[granted.value := Active],
             taken := s.taken[lane := s.taken[lane] + 1],
             phase := s.phase[lane := Streaming(granted.value)])
    case (Commit(lane), Streaming(index)) =>
      if index < |s.states| && s.states[index] == Active then
        s.(states := s.states[index := Complete], phase := s.phase[lane := Between])
      else
        s.(phase := s.phase[lane := Refused])
    case _ => s
  }

  ghost predicate WellShaped(s: State) {
    && s.shape.Valid()
    && s.shape.segment == EXTENT
    && |s.states| == s.shape.Count()
    && |s.taken| == |s.phase| == STRIDE
  }

  /** The lane that owns extent `i` decides its state: pending until the lane takes it, then active, then complete. */
  ghost predicate Placed(s: State, i: nat)
    requires WellShaped(s) && i < |s.states|
  {
    var lane, k := i % STRIDE, i / STRIDE;
    s.states[i] ==
      if k >= s.taken[lane] then Pending
      else if s.phase[lane] == Streaming(i) then Active
      else Complete
  }

  ghost predicate LaneInv(s: State, lane: nat)
    requires WellShaped(s) && lane < STRIDE
  {
    var k := s.taken[lane];
    && (k > 0 ==> Item(lane, k - 1) < |s.states|)
    && (s.phase[lane].Streaming? ==> k > 0 && s.phase[lane].index == Item(lane, k - 1))
    && (s.phase[lane].Ended? ==> |s.states| <= Item(lane, k) < WRAP)
    && (s.phase[lane].Refused? ==> WRAP <= Item(lane, k))
  }

  ghost predicate Inv(s: State) {
    && WellShaped(s)
    && (forall i: nat {:trigger Placed(s, i)} | i < |s.states| :: Placed(s, i))
    && (forall lane: nat {:trigger LaneInv(s, lane)} | lane < STRIDE :: LaneInv(s, lane))
  }

  ghost predicate IsComplete(s: State)
    requires WellShaped(s)
  {
    CompletedSum(s.shape, s.states, |s.states|) == s.shape.total
  }

  ghost predicate Scheduled(actions: seq<Action>) {
    forall i | 0 <= i < |actions| :: actions[i].lane < STRIDE
  }

  ghost function Run(s: State, actions: seq<Action>): (r: State)
    requires Inv(s) && Scheduled(actions)
    ensures Inv(r) && r.shape == s.shape
    decreases |actions|
  {
    if actions == [] then s
    else
      ApplyKeepsInv(s, actions[0]);
      Run(Apply(s, actions[0]), actions[1..])
  }

  lemma ItemQuotient(lane: nat, k: nat)
    requires lane < STRIDE
    ensures Item(lane, k) % STRIDE == lane && Item(lane, k) / STRIDE == k
  {
  }

  /** Offsets are exact below 2^38 extents; beyond them the offset of an earlier extent comes out. */
  lemma OffsetOf(sh: Shape, lane: nat, k: nat)
    requires sh.Valid() && sh.segment == EXTENT && Item(lane, k) < 2 * WRAP
    ensures Item(lane, k) < WRAP ==> Offset(lane, k) == sh.Start(Item(lane, k))
    ensures Item(lane, k) >= WRAP ==> Offset(lane, k) == sh.Start(Item(lane, k) - WRAP)
  {
    StartIsProduct(sh, Item(lane, k));
    if Item(lane, k) >= WRAP {
      StartIsProduct(sh, Item(lane, k) - WRAP);
    }
  }

  lemma CountBelowWrap(sh: Shape)
    requires sh.Valid() && sh.segment == EXTENT
    ensures sh.Count() <= WRAP
    ensures sh.total <= LARGEST <==> sh.Count() + STRIDE <= WRAP
  {
    CeilBounds(sh);
  }

  lemma InitialInv(total: U64)
    requires total > 0
    ensures Inv(Initial(total))
  {
    var s := Initial(total);
    assert forall i: nat | i < |s.states| :: Placed(s, i);
    assert forall lane: nat | lane < STRIDE :: LaneInv(s, lane);
  }

  /** What a lane between two items finds: its next extent is Pending and granted, or it has ended or wrapped. */
  lemma NextOutcome(s: State, lane: nat)
    requires Inv(s) && lane < STRIDE && s.phase[lane] == Between
    ensures var next, after := Item(lane, s.taken[lane]), Apply(s, Next(lane));
            if next < |s.states| then
              && s.states[next] == Pending
              && after == s.(states := s.states[next := Active], taken := s.taken[lane := s.taken[lane] + 1],
                             phase := s.phase[lane := Streaming(next)])
            else if next < WRAP then after == s.(phase := s.phase[lane := Ended])
            else after == s.(phase := s.phase[lane := Refused])
  {
    var k := s.taken[lane];
    var next, offset := Item(lane, k), Offset(lane, k);
    assert LaneInv(s, lane);
    CountBelowWrap(s.shape);
    OffsetOf(s.shape, lane, k);
    ItemQuotient(lane, k);
    if next < |s.states| {
      CountBounds(s.shape, next);
      CoversExactly(s.shape, next, offset, s.shape.Len(next));
      assert Placed(s, next);
    } else if next < WRAP {
      CountBounds(s.shape, next);
    } else {
      StartQuotient(s.shape, next - WRAP);
      WrappedLane(lane, k);
    }
  }

  /** 2^38 is not a multiple of 24, so a wrapped offset belongs to another lane. */
  lemma WrappedLane(lane: nat, k: nat)
    requires lane < STRIDE && Item(lane, k) >= WRAP
    ensures (Item(lane, k) - WRAP) % STRIDE != lane
  {
  }

  lemma ApplyKeepsInv(s: State, a: Action)
    requires Inv(s) && a.lane < STRIDE
    ensures Inv(Apply(s, a)) && Apply(s, a).shape == s.shape
  {
    match (a, s.phase[a.lane])
    case (Next(lane), Between) => NextKeepsInv(s, lane);
    case (Commit(lane), Streaming(_)) => CommitKeepsInv(s, lane);
    case _ =>
  }

  lemma NextKeepsInv(s: State, lane: nat)
    requires Inv(s) && lane < STRIDE && s.phase[lane] == Between
    ensures Inv(Apply(s, Next(lane))) && Apply(s, Next(lane)).shape == s.shape
  {
    var t := Apply(s, Next(lane));
    assert LaneInv(s, lane);
    NextOutcome(s, lane);
    ItemQuotient(lane, s.taken[lane]);
    LanesKept(s, t, lane);
    PlacesKept(s, t, lane, Item(lane, s.taken[lane]));
  }

  lemma CommitKeepsInv(s: State, lane: nat)
    requires Inv(s) && lane < STRIDE && s.phase[lane].Streaming?
    ensures Inv(Apply(s, Commit(lane))) && Apply(s, Commit(lane)).shape == s.shape
  {
    var t, index := Apply(s, Commit(lane)), s.phase[lane].index;
    assert LaneInv(s, lane);
    ItemQuotient(lane, s.taken[lane] - 1);
    assert Placed(s, index);
    LanesKept(s, t, lane);
    PlacesKept(s, t, lane, index);
  }

  lemma LanesKept(s: State, t: State, lane: nat)
    requires Inv(s) && WellShaped(t) && t.shape == s.shape && lane < STRIDE
    requires forall l: nat | l < STRIDE && l != lane :: t.taken[l] == s.taken[l] && t.phase[l] == s.phase[l]
    requires LaneInv(t, lane)
    ensures forall l: nat {:trigger LaneInv(t, l)} | l < STRIDE :: LaneInv(t, l)
  {
    forall l: nat | l < STRIDE
      ensures LaneInv(t, l)
    {
      assert LaneInv(s, l);
    }
  }

  /** Only extent `at` of the acting lane may change. */
  lemma PlacesKept(s: State, t: State, lane: nat, at: nat)
    requires Inv(s) && WellShaped(t) && t.shape == s.shape && lane < STRIDE
    requires at % STRIDE == lane
    requires forall l: nat | l < STRIDE && l != lane :: t.taken[l] == s.taken[l] && t.phase[l] == s.phase[l]
    requires forall i: nat | i < |s.states| && i != at :: t.states[i] == s.states[i]
    requires at < |t.states| ==> Placed(t, at)
    requires s.taken[lane] <= t.taken[lane] <= at / STRIDE + 1
    requires s.taken[lane] >= at / STRIDE
    requires s.phase[lane].Streaming? ==> s.phase[lane].index == at
    requires t.phase[lane].Streaming? ==> t.phase[lane].index == at
    ensures forall i: nat {:trigger Placed(t, i)} | i < |t.states| :: Placed(t, i)
  {
    forall i: nat | i < |t.states|
      ensures Placed(t, i)
    {
      assert Placed(s, i);
      assert i % STRIDE == lane && i / STRIDE == at / STRIDE ==> i == at;
    }
  }

  /** No schedule of a file within the limit ever has a request refused. */
  lemma {:induction false} NeverRefused(total: U64, actions: seq<Action>, lane: nat)
    requires 0 < total <= LARGEST && Scheduled(actions) && lane < STRIDE
    ensures Inv(Initial(total))
    ensures !Run(Initial(total), actions).phase[lane].Refused?
  {
    InitialInv(total);
    var s := Run(Initial(total), actions);
    assert LaneInv(s, lane);
    CountBelowWrap(s.shape);
  }

  ghost predicate AllStopped(s: State)
    requires WellShaped(s)
  {
    forall lane: nat | lane < STRIDE :: s.phase[lane].Ended? || s.phase[lane].Refused?
  }

  ghost predicate AllEnded(s: State)
    requires WellShaped(s)
  {
    forall lane: nat | lane < STRIDE :: s.phase[lane].Ended?
  }

  /** When every lane has ended, every extent was taken by its own lane and the file is complete. */
  lemma {:induction false} EndedIsComplete(s: State)
    requires Inv(s) && AllEnded(s)
    ensures IsComplete(s)
  {
    forall i: nat | i < |s.states|
      ensures s.states[i] == Complete
    {
      var lane := i % STRIDE;
      assert Placed(s, i) && LaneInv(s, lane);
      assert i == Item(lane, i / STRIDE);
    }
    CompletedExactlyWhenAllComplete(s.shape, s.states);
  }

  /** The lane whose first item behind the last extent needs more than 64 bits. */
  lemma OverlargeLane(s: State)
    requires Inv(s) && s.shape.total > LARGEST
    ensures exists lane: nat :: lane < STRIDE && !s.phase[lane].Ended?
  {
    CountBelowWrap(s.shape);
    var lane := (WRAP - 1) % STRIDE;
    if |s.states| < WRAP {
      lane := (|s.states| + STRIDE - 1) % STRIDE;
    }
    assert LaneInv(s, lane);
  }

  /**
   * However the lanes are interleaved, once they have all stopped: all ended, with the file complete, exactly for a
   * file within the limit.
   */
  lemma {:induction false} SucceedsExactlyWithinLimit(total: U64, actions: seq<Action>)
    requires 0 < total && Scheduled(actions)
    ensures Inv(Initial(total))
    ensures var s := Run(Initial(total), actions);
            AllStopped(s) ==>
              (AllEnded(s) <==> total <= 18_446_744_072_098_938_880) && (AllEnded(s) ==> IsComplete(s))
  {
    InitialInv(total);
    var s := Run(Initial(total), actions);
    if AllStopped(s) {
      if total <= LARGEST {
        forall lane: nat | lane < STRIDE
          ensures s.phase[lane].Ended?
        {
          NeverRefused(total, actions, lane);
        }
      } else {
        OverlargeLane(s);
      }
      if AllEnded(s) {
        EndedIsComplete(s);
      }
    }
  }

  /** Steps a lane may still have to take: two for each extent, and one to stop. */
  ghost function Work(s: State): nat {
    ExtentWork(s.states) + LaneWork(s.phase)
  }

  ghost function ExtentWork(states: seq<SegmentState>): nat {
    if states == [] then 0
    else ExtentWork(states[1..]) + match states[0] case Pending => 2 case Active => 1 case Complete => 0
  }

  ghost function LaneWork(phase: seq<Phase>): nat {
    if phase == [] then 0
    else LaneWork(phase[1..]) + if phase[0].Ended? || phase[0].Refused? then 0 else 1
  }

  lemma {:induction false} ExtentWorkDrops(states: seq<SegmentState>, i: nat, v: SegmentState)
    requires i < |states|
    requires (states[i] == Pending && v == Active) || (states[i] == Active && v == Complete)
    ensures ExtentWork(states[i := v]) == ExtentWork(states) - 1
  {
    if i > 0 {
      assert states[i := v][1..] == states[1..][i - 1 := v];
      ExtentWorkDrops(states[1..], i - 1, v);
    } else {
      assert states[i := v][1..] == states[1..];
    }
  }

  lemma {:induction false} LaneWorkAt(phase: seq<Phase>, i: nat, v: Phase)
    requires i < |phase| && !phase[i].Ended? && !phase[i].Refused?
    ensures LaneWork(phase[i := v]) == LaneWork(phase) - if v.Ended? || v.Refused? then 1 else 0
  {
    if i > 0 {
      assert phase[i := v][1..] == phase[1..][i - 1 := v];
      LaneWorkAt(phase[1..], i - 1, v);
    } else {
      assert phase[i := v][1..] == phase[1..];
    }
  }

  predicate Enabled(s: State, a: Action)
    requires a.lane < |s.phase|
  {
    match a
    case Next(lane) => s.phase[lane] == Between
    case Commit(lane) => s.phase[lane].Streaming?
  }

  /** Every effective step uses up work, so every schedule comes to rest, and only when all lanes have stopped. */
  lemma EveryScheduleStops(s: State, a: Action)
    requires Inv(s) && a.lane < STRIDE
    ensures Enabled(s, a) ==> Work(Apply(s, a)) < Work(s)
    ensures !Enabled(s, a) ==> Apply(s, a) == s
    ensures AllStopped(s) <==> forall b: Action | b.lane < STRIDE :: !Enabled(s, b)
  {
    var lane := a.lane;
    assert LaneInv(s, lane);
    match (a, s.phase[lane]) {
      case (Next(_), Between) =>
        NextOutcome(s, lane);
        var next := Item(lane, s.taken[lane]);
        if next < |s.states| {
          ExtentWorkDrops(s.states, next, Active);
        }
        LaneWorkAt(s.phase, lane, Apply(s, a).phase[lane]);
      case (Commit(_), Streaming(index)) =>
        ItemQuotient(lane, s.taken[lane] - 1);
        assert Placed(s, index);
        ExtentWorkDrops(s.states, index, Complete);
        LaneWorkAt(s.phase, lane, Between);
      case _ =>
    }
    if forall b: Action | b.lane < STRIDE :: !Enabled(s, b) {
      forall l: nat | l < STRIDE
        ensures s.phase[l].Ended? || s.phase[l].Refused?
      {
        assert !Enabled(s, Next(l)) && !Enabled(s, Commit(l));
      }
    }
  }

  /** From any reachable state some schedule comes to rest. */
  lemma {:induction false} CanComeToRest(s: State) returns (actions: seq<Action>)
    requires Inv(s)
    ensures Scheduled(actions) && AllStopped(Run(s, actions))
    decreases Work(s)
  {
    if AllStopped(s) {
      actions := [];
    } else {
      var lane: nat :| lane < STRIDE && !(s.phase[lane].Ended? || s.phase[lane].Refused?);
      var a := if s.phase[lane] == Between then Next(lane) else Commit(lane);
      EveryScheduleStops(s, a);
      ApplyKeepsInv(s, a);
      var more := CanComeToRest(Apply(s, a));
      actions := [a] + more;
      assert actions[1..] == more;
    }
  }

  /** A file is completed by some schedule, and from every point on by some continuation, exactly within the limit. */
  lemma {:induction false} CompletableExactlyWithinLimit(total: U64, before: seq<Action>) returns (actions: seq<Action>)
    requires 0 < total && Scheduled(before)
    ensures Inv(Initial(total)) && Scheduled(actions)
    ensures total <= 18_446_744_072_098_938_880 ==>
              var s := Run(Run(Initial(total), before), actions); AllEnded(s) && IsComplete(s)
    ensures total > 18_446_744_072_098_938_880 ==>
              forall other: seq<Action> | Scheduled(other) :: !AllEnded(Run(Initial(total), other))
  {
    InitialInv(total);
    actions := CanComeToRest(Run(Initial(total), before));
    RunConcat(Initial(total), before, actions);
    SucceedsExactlyWithinLimit(total, before + actions);
    if total > LARGEST {
      forall other: seq<Action> | Scheduled(other)
        ensures !AllEnded(Run(Initial(total), other))
      {
        OverlargeLane(Run(Initial(total), other));
      }
    }
  }

  lemma {:induction false} RunConcat(s: State, a: seq<Action>, b: seq<Action>)
    requires Inv(s) && Scheduled(a) && Scheduled(b)
    ensures Scheduled(a + b) && Run(s, a + b) == Run(Run(s, a), b)
    decreases |a|
  {
    if a == [] {
      assert a + b == b;
    } else {
      var first, rest := a[0], a[1..];
      assert a + b == [first] + (rest + b);
      ApplyKeepsInv(s, first);
      RunConcat(Apply(s, first), rest, b);
      assert (a + b)[1..] == rest + b;
    }
  }
}
