/** The receive side of one native file transfer as a state machine (file_transfer.rs). */
module TransferProtocol {
  import opened Base
  import opened Segments

  // Every mutex section, atomic operation and positional write is one action; a run is any sequence of actions, so
  // every interleaving of the workers, including segments that are dropped half written and requested again, is a run.
  // A positional write that fails half way is the write of what it stored, followed by the drop of its lease.

  /** A live, uncommitted SegmentLease together with the bytes its holder has written so far. */
  datatype Lease = Lease(index: nat, written: seq<Byte>)

  /**
   * `holder`, `committed` and `stranded` are history: which lease took each Active segment, the bytes of the lease
   * that committed each segment, and the segments whose reservation was followed by a failing clock read before
   * the lease object existed.
   */
  datatype State = State(
    shape: Shape,
    states: seq<SegmentState>,
    completed: nat,
    file: seq<Byte>,
    leases: map<nat, Lease>,
    holder: map<nat, nat>,
    committed: map<nat, seq<Byte>>,
    stranded: set<nat>
  )

  datatype Action =
    | Reserve(id: nat, offset: nat, len: nat, clockOk: bool)
    | Write(id: nat, block: seq<Byte>)
    | Commit(id: nat)
    | Drop(id: nat)

  function Initial(shape: Shape, content: seq<Byte>): State
    requires shape.Valid()
  {
    State(shape, seq(shape.Count(), _ => Pending), 0, content, map[], map[], map[], {})
  }

  /** A refused or impossible action leaves the state alone. */
  function Apply(s: State, a: Action): State
    requires Inv(s)
  {
    match a
    case Reserve(id, offset, len, clockOk) =>
      var found := SegmentAt(s.shape, offset, len);
      if id in s.leases || found.None? || s.states[found.value] != Pending then s
      else
        var marked := s.(states := s.states[found.value := Active]);
        if clockOk then
          marked.(leases := s.leases[id := Lease(found.value, [])], holder := s.holder[found.value := id])
        else marked.(stranded := s.stranded + {found.value})
    case Write(id, block) =>
      if id !in s.leases || |s.leases[id].written| + |block| > s.shape.Len(s.leases[id].index) then s
      else
        var lease := s.leases[id];
        LeaseFacts(s, id);
        s.(file := Splice(s.file, s.shape.Start(lease.index) + |lease.written|, block),
           leases := s.leases[id := lease.(written := lease.written + block)])
    case Commit(id) =>
      // the writer hands the lease over only after its position reached the end of the segment
      if id !in s.leases || |s.leases[id].written| != s.shape.Len(s.leases[id].index) then s
      else
        var lease := s.leases[id];
        if s.states[lease.index] != Active then Retire(s, id)
        else
          Retire(s, id).(
             states := s.states[lease.index := Complete],
             completed := (s.completed + |lease.written|) % TWO_64,
             committed := s.committed[lease.index := lease.written])
    case Drop(id) =>
      if id !in s.leases then s
      else
        var lease := s.leases[id];
        Retire(s, id).(
          states := if s.states[lease.index] == Active then s.states[lease.index := Pending] else s.states)
  }

  function Retire(s: State, id: nat): State
    requires id in s.leases
  {
    s.(leases := s.leases - {id}, holder := s.holder - {s.leases[id].index})
  }

  ghost function Run(s: State, actions: seq<Action>): (r: State)
    requires Inv(s)
    ensures Inv(r)
    decreases |actions|
  {
    if actions == [] then s
    else
      ApplyKeepsInv(s, actions[0]);
      Run(Apply(s, actions[0]), actions[1..])
  }

  predicate IsComplete(s: State) {
    s.completed == s.shape.total
  }

  /** The byte counter is the exact sum of the Complete segments. */
  ghost predicate Counted(s: State) {
    && s.shape.Valid()
    && |s.states| == s.shape.Count()
    && |s.file| == s.shape.total
    && s.completed == CompletedSum(s.shape, s.states, |s.states|)
  }

  /** What the state of segment `i` says about who holds it. */
  ghost predicate Tagged(s: State, i: nat)
    requires i < |s.states|
  {
    && (s.states[i] == Active <==> i in s.holder || i in s.stranded)
    && !(i in s.holder && i in s.stranded)
    && (s.states[i] == Complete <==> i in s.committed)
  }

  /** Leases and Active segments correspond one to one, except for the stranded segments. */
  ghost predicate Owned(s: State) {
    && (forall id | id in s.leases :: s.leases[id].index < |s.states|)
    && (forall i: nat {:trigger Tagged(s, i)} | i < |s.states| :: Tagged(s, i))
    && (forall id {:trigger LeaseHolds(s, id)} | id in s.leases :: LeaseHolds(s, id))
    && (forall i {:trigger HolderLives(s, i)} | i in s.holder :: HolderLives(s, i))
    && (forall i | i in s.stranded || i in s.committed :: i < |s.states|)
  }

  ghost predicate LeaseHolds(s: State, id: nat)
    requires id in s.leases
  {
    s.leases[id].index in s.holder && s.holder[s.leases[id].index] == id
  }

  ghost predicate HolderLives(s: State, i: nat)
    requires i in s.holder
  {
    i < |s.states| && s.holder[i] in s.leases && s.leases[s.holder[i]].index == i
  }

  /** The file holds `bytes` at the beginning of segment `i`. */
  ghost predicate Holds(s: State, i: nat, bytes: seq<Byte>) {
    && |bytes| <= s.shape.Len(i)
    && s.shape.Start(i) + |bytes| <= |s.file|
    && s.file[s.shape.Start(i)..s.shape.Start(i) + |bytes|] == bytes
  }

  /** What a holder has written so far, and what was committed, is what the file holds there. */
  ghost predicate Stored(s: State) {
    && (forall id {:trigger LeaseStored(s, id)} | id in s.leases :: LeaseStored(s, id))
    && (forall i {:trigger CommitStored(s, i)} | i in s.committed :: CommitStored(s, i))
  }

  ghost predicate LeaseStored(s: State, id: nat)
    requires id in s.leases
  {
    Holds(s, s.leases[id].index, s.leases[id].written)
  }

  ghost predicate CommitStored(s: State, i: nat)
    requires i in s.committed
  {
    Holds(s, i, s.committed[i]) && |s.committed[i]| == s.shape.Len(i)
  }

  ghost predicate Inv(s: State) {
    Counted(s) && Owned(s) && Stored(s)
  }

  lemma LeaseFacts(s: State, id: nat)
    requires Inv(s) && id in s.leases
    ensures var i := s.leases[id].index;
            && i < |s.states| && s.states[i] == Active && i !in s.committed
            && s.shape.Start(i) + s.shape.Len(i) <= |s.file|
            && i in s.holder && s.holder[i] == id
            && Holds(s, i, s.leases[id].written)
  {
    assert LeaseHolds(s, id) && LeaseStored(s, id) && Tagged(s, s.leases[id].index);
    CountBounds(s.shape, s.leases[id].index);
  }

  lemma InitialInv(shape: Shape, content: seq<Byte>)
    requires shape.Valid() && |content| == shape.total
    ensures Inv(Initial(shape, content))
  {
    var s := Initial(shape, content);
    SegmentTracker.NothingCompleted(shape, s.states, |s.states|);
  }

  lemma ApplyKeepsInv(s: State, a: Action)
    requires Inv(s)
    ensures Inv(Apply(s, a))
  {
    match a
    case Reserve(id, offset, len, clockOk) => ReserveKeepsInv(s, id, offset, len, clockOk);
    case Write(id, block) => WriteKeepsInv(s, id, block);
    case Commit(id) => CommitKeepsInv(s, id);
    case Drop(id) => DropKeepsInv(s, id);
  }

  lemma ReserveKeepsInv(s: State, id: nat, offset: nat, len: nat, clockOk: bool)
    requires Inv(s)
    ensures Inv(Apply(s, Reserve(id, offset, len, clockOk)))
  {
    var found := SegmentAt(s.shape, offset, len);
    if id !in s.leases && found.Some? && s.states[found.value] == Pending {
      var t := Apply(s, Reserve(id, offset, len, clockOk));
      CompletedSumUpdate(s.shape, s.states, |s.states|, found.value, Active);
      ReserveKeepsOwned(s, t, id, found.value, clockOk);
      ReserveKeepsStored(s, t, id, found.value);
    }
  }

  lemma ReserveKeepsOwned(s: State, t: State, id: nat, i: nat, clockOk: bool)
    requires Owned(s) && id !in s.leases && i < |s.states| && s.states[i] == Pending
    requires t.states == s.states[i := Active] && t.committed == s.committed
    requires clockOk ==>
               t.leases == s.leases[id := Lease(i, [])] && t.holder == s.holder[i := id] && t.stranded == s.stranded
    requires !clockOk ==> t.leases == s.leases && t.holder == s.holder && t.stranded == s.stranded + {i}
    ensures Owned(t)
  {
    assert Tagged(s, i);
    forall j: nat | j < |t.states|
      ensures Tagged(t, j)
    {
      assert Tagged(s, j);
    }
    forall k | k in t.leases
      ensures LeaseHolds(t, k)
    {
      assert k in s.leases ==> LeaseHolds(s, k);
    }
    forall j | j in t.holder
      ensures HolderLives(t, j)
    {
      assert j in s.holder ==> HolderLives(s, j);
    }
  }

  lemma ReserveKeepsStored(s: State, t: State, id: nat, i: nat)
    requires Counted(s) && Stored(s) && i < |s.states|
    requires t.leases == s.leases[id := Lease(i, [])] || t.leases == s.leases
    requires t.shape == s.shape && t.file == s.file && t.committed == s.committed
    ensures Stored(t)
  {
    CountBounds(s.shape, i);
    forall k | k in t.leases
      ensures LeaseStored(t, k)
    {
      if t.leases[k] != Lease(i, []) {
        assert LeaseStored(s, k);
      }
    }
    StoredStays(s, t);
  }

  lemma StoredStays(s: State, t: State)
    requires Stored(s)
    requires t.shape == s.shape && t.file == s.file && t.committed == s.committed
    ensures forall i {:trigger CommitStored(t, i)} | i in t.committed :: CommitStored(t, i)
  {
    forall i | i in t.committed
      ensures CommitStored(t, i)
    {
      assert CommitStored(s, i);
    }
  }

  /** A positional write by one lease holder touches nobody else's bytes. */
  lemma WriteElsewhere(s: State, id: nat, block: seq<Byte>, j: nat, bytes: seq<Byte>)
    requires Inv(s) && id in s.leases && j < |s.states| && j != s.leases[id].index
    requires |s.leases[id].written| + |block| <= s.shape.Len(s.leases[id].index)
    requires Holds(s, j, bytes)
    ensures Holds(Apply(s, Write(id, block)), j, bytes)
  {
    var i := s.leases[id].index;
    var at := s.shape.Start(i) + |s.leases[id].written|;
    LeaseFacts(s, id);
    if i < j {
      SegmentsDisjoint(s.shape, i, j);
    } else {
      SegmentsDisjoint(s.shape, j, i);
    }
    SpliceOutside(s.file, at, block, s.shape.Start(j), s.shape.Start(j) + |bytes|);
  }

  lemma WriteOwn(s: State, id: nat, block: seq<Byte>)
    requires Inv(s) && id in s.leases
    requires |s.leases[id].written| + |block| <= s.shape.Len(s.leases[id].index)
    ensures Holds(Apply(s, Write(id, block)), s.leases[id].index, s.leases[id].written + block)
  {
    var lease := s.leases[id];
    LeaseFacts(s, id);
    assert Holds(s, lease.index, lease.written);
    var start := s.shape.Start(lease.index);
    var at := start + |lease.written|;
    var spliced := Splice(s.file, at, block);
    SpliceOutside(s.file, at, block, start, at);
    assert spliced[start..at + |block|] == spliced[start..at] + spliced[at..at + |block|];
  }

  lemma WriteKeepsInv(s: State, id: nat, block: seq<Byte>)
    requires Inv(s)
    ensures Inv(Apply(s, Write(id, block)))
  {
    if id in s.leases && |s.leases[id].written| + |block| <= s.shape.Len(s.leases[id].index) {
      var t := Apply(s, Write(id, block));
      LeaseFacts(s, id);
      WriteKeepsOwned(s, t, id);
      WriteKeepsStored(s, id, block);
    }
  }

  lemma WriteKeepsOwned(s: State, t: State, id: nat)
    requires Owned(s) && id in s.leases && t.leases.Keys == s.leases.Keys
    requires t.states == s.states && t.holder == s.holder && t.stranded == s.stranded && t.committed == s.committed
    requires forall k | k in s.leases :: t.leases[k].index == s.leases[k].index
    ensures Owned(t)
  {
    forall j: nat | j < |t.states|
      ensures Tagged(t, j)
    {
      assert Tagged(s, j);
    }
    forall k | k in t.leases
      ensures LeaseHolds(t, k)
    {
      assert LeaseHolds(s, k);
    }
    forall j | j in t.holder
      ensures HolderLives(t, j)
    {
      assert HolderLives(s, j);
    }
  }

  lemma WriteKeepsStored(s: State, id: nat, block: seq<Byte>)
    requires Inv(s) && id in s.leases
    requires |s.leases[id].written| + |block| <= s.shape.Len(s.leases[id].index)
    ensures Stored(Apply(s, Write(id, block)))
  {
    var t := Apply(s, Write(id, block));
    forall k | k in t.leases
      ensures LeaseStored(t, k)
    {
      if k == id {
        WriteOwn(s, id, block);
      } else {
        LeasesAreExclusive(s, id, k);
        LeaseFacts(s, k);
        WriteElsewhere(s, id, block, s.leases[k].index, s.leases[k].written);
      }
    }
    LeaseFacts(s, id);
    forall c | c in t.committed
      ensures CommitStored(t, c)
    {
      assert CommitStored(s, c);
      WriteElsewhere(s, id, block, c, s.committed[c]);
    }
  }

  lemma CommitKeepsInv(s: State, id: nat)
    requires Inv(s)
    ensures Inv(Apply(s, Commit(id)))
  {
    if id in s.leases && |s.leases[id].written| == s.shape.Len(s.leases[id].index) {
      var t := Apply(s, Commit(id));
      CommitSucceeds(s, id);
      RemovalKeepsOwned(s, t, id, Complete);
      CommitKeepsStored(s, t, id);
    }
  }

  /** A lease whose bytes are all written always commits; the tracker never answers "not active". */
  lemma CommitSucceeds(s: State, id: nat)
    requires Inv(s) && id in s.leases
    requires |s.leases[id].written| == s.shape.Len(s.leases[id].index)
    ensures var t := Apply(s, Commit(id));
            && t == Retire(s, id).(
                      states := s.states[s.leases[id].index := Complete],
                      completed := s.completed + s.shape.Len(s.leases[id].index),
                      committed := s.committed[s.leases[id].index := s.leases[id].written])
            && Counted(t)
  {
    LeaseFacts(s, id);
    CommitFits(s.shape, s.states, s.leases[id].index);
    CompletedSumUpdate(s.shape, s.states, |s.states|, s.leases[id].index, Complete);
  }

  lemma CommitKeepsStored(s: State, t: State, id: nat)
    requires Stored(s) && id in s.leases
    requires |s.leases[id].written| == s.shape.Len(s.leases[id].index)
    requires t.shape == s.shape && t.file == s.file && t.leases == s.leases - {id}
    requires t.committed == s.committed[s.leases[id].index := s.leases[id].written]
    ensures Stored(t)
  {
    forall k | k in t.leases
      ensures LeaseStored(t, k)
    {
      assert LeaseStored(s, k);
    }
    assert LeaseStored(s, id);
    forall c | c in t.committed
      ensures CommitStored(t, c)
    {
      if c != s.leases[id].index {
        assert CommitStored(s, c);
      }
    }
  }

  /** A lease leaves and its segment becomes Complete or Pending: ownership stays exact. */
  lemma RemovalKeepsOwned(s: State, t: State, id: nat, v: SegmentState)
    requires Owned(s) && id in s.leases
    requires t.leases == s.leases - {id} && t.holder == s.holder - {s.leases[id].index} && t.stranded == s.stranded
    requires v != Active && t.states == s.states[s.leases[id].index := v]
    requires t.committed.Keys == s.committed.Keys + if v == Complete then {s.leases[id].index} else {}
    ensures Owned(t)
  {
    assert LeaseHolds(s, id);
    forall j: nat | j < |t.states|
      ensures Tagged(t, j)
    {
      assert Tagged(s, j);
    }
    forall k | k in t.leases
      ensures LeaseHolds(t, k)
    {
      assert LeaseHolds(s, k);
    }
    forall j | j in t.holder
      ensures HolderLives(t, j)
    {
      assert HolderLives(s, j);
    }
  }

  lemma DropKeepsInv(s: State, id: nat)
    requires Inv(s)
    ensures Inv(Apply(s, Drop(id)))
  {
    if id in s.leases {
      var t := Apply(s, Drop(id));
      LeaseFacts(s, id);
      RemovalKeepsOwned(s, t, id, Pending);
      CompletedSumUpdate(s.shape, s.states, |s.states|, s.leases[id].index, Pending);
      RemovalKeepsStored(s, t, id);
    }
  }

  lemma RemovalKeepsStored(s: State, t: State, id: nat)
    requires Stored(s) && id in s.leases
    requires t.shape == s.shape && t.file == s.file && t.leases == s.leases - {id} && t.committed == s.committed
    ensures Stored(t)
  {
    forall k | k in t.leases
      ensures LeaseStored(t, k)
    {
      assert LeaseStored(s, k);
    }
    StoredStays(s, t);
  }

  // ----- What every run keeps

  /** In every reachable state the counter never wrapped, and it equals the size exactly at full coverage. */
  lemma CompleteExactlyWhenCovered(s: State)
    requires Inv(s)
    ensures s.completed <= s.shape.total
    ensures IsComplete(s) <==> forall i | 0 <= i < |s.states| :: s.states[i] == Complete
  {
    CompletedExactlyWhenAllComplete(s.shape, s.states);
  }

  /** A dropped segment can be requested again, by anybody, as often as it takes. */
  lemma DroppedSegmentIsFree(s: State, id: nat, again: nat)
    requires Inv(s) && id in s.leases && (again !in s.leases || again == id)
    ensures var i := s.leases[id].index;
            var t := Apply(s, Drop(id));
            && t.states == s.states[i := Pending]
            && 0 <= s.shape.Len(i)
            && Inv(t)
            && Apply(t, Reserve(again, s.shape.Start(i), s.shape.Len(i), true)).leases
               == t.leases[again := Lease(i, [])]
  {
    var i := s.leases[id].index;
    LeaseFacts(s, id);
    CountBounds(s.shape, i);
    DropKeepsInv(s, id);
    assert s.shape.Covers(i, s.shape.Start(i), s.shape.Len(i));
    var found := SegmentAt(s.shape, s.shape.Start(i), s.shape.Len(i));
    StartQuotient(s.shape, i);
    StartQuotient(s.shape, found.value);
  }

  ghost predicate Held(s: State, i: nat) {
    exists id :: id in s.leases && s.leases[id].index == i
  }

  /** No two live leases share a segment, and a live lease's segment is Active. */
  lemma LeasesAreExclusive(s: State, a: nat, b: nat)
    requires Inv(s) && a in s.leases && b in s.leases && a != b
    ensures s.leases[a].index != s.leases[b].index
    ensures s.leases[a].index < |s.states| && s.states[s.leases[a].index] == Active
  {
    LeaseFacts(s, a);
    LeaseFacts(s, b);
  }

  /** A segment is Active exactly when a live lease holds it, unless a failing clock read stranded it. */
  lemma ActiveExactlyWhenHeld(s: State)
    requires Inv(s)
    ensures forall i: nat | i < |s.states| :: s.states[i] == Active <==> Held(s, i) || i in s.stranded
    ensures (forall i: nat | i < |s.states| :: s.states[i] == Active <==> Held(s, i)) <==> s.stranded == {}
  {
    forall i: nat | i < |s.states|
      ensures Held(s, i) <==> i in s.holder
      ensures s.states[i] == Active <==> Held(s, i) || i in s.stranded
    {
      assert Tagged(s, i);
      if i in s.holder {
        assert HolderLives(s, i);
      }
      if Held(s, i) {
        var id :| id in s.leases && s.leases[id].index == i;
        assert LeaseHolds(s, id);
      }
    }
    if s.stranded != {} {
      var i :| i in s.stranded;
      assert Tagged(s, i);
    }
  }

  lemma StrandedStays(s: State, a: Action)
    requires Inv(s)
    ensures s.stranded <= Apply(s, a).stranded
  {
  }

  lemma StrandedBlocksCompletion(s: State)
    requires Inv(s) && s.stranded != {}
    ensures !IsComplete(s)
  {
    CompleteExactlyWhenCovered(s);
    var i :| i in s.stranded;
    assert Tagged(s, i) && s.states[i] == Active;
  }

  /** A stranded segment is lost for good: whatever happens later, the transfer never completes. */
  lemma {:induction false} StrandedForever(s: State, actions: seq<Action>)
    requires Inv(s)
    ensures s.stranded <= Run(s, actions).stranded
    ensures s.stranded != {} ==> !IsComplete(Run(s, actions))
    decreases |actions|
  {
    if actions == [] {
      if s.stranded != {} {
        StrandedBlocksCompletion(s);
      }
    } else {
      ApplyKeepsInv(s, actions[0]);
      StrandedStays(s, actions[0]);
      StrandedForever(Apply(s, actions[0]), actions[1..]);
    }
  }

  /** This request is granted: it names a whole segment that is Pending. */
  predicate Granted(s: State, a: Action)
    requires Inv(s) && a.Reserve?
  {
    var found := SegmentAt(s.shape, a.offset, a.len);
    a.id !in s.leases && found.Some? && s.states[found.value] == Pending
  }

  /** A request was granted and the clock read that follows it failed. */
  ghost predicate ClockFailed(s: State, a: Action)
    requires Inv(s)
  {
    a.Reserve? && !a.clockOk && Granted(s, a)
  }

  /** This happened somewhere in the run. */
  ghost predicate SomeClockFailed(s: State, actions: seq<Action>)
    requires Inv(s)
    decreases |actions|
  {
    if actions == [] then false
    else
      ApplyKeepsInv(s, actions[0]);
      ClockFailed(s, actions[0]) || SomeClockFailed(Apply(s, actions[0]), actions[1..])
  }

  lemma ClockStep(s: State, a: Action)
    requires Inv(s)
    ensures Apply(s, a).stranded == {} <==> s.stranded == {} && !ClockFailed(s, a)
  {
  }

  /** Segments are stranded exactly by the failing clock reads of the run. */
  lemma {:induction false} StrandedExactlyByClock(s: State, actions: seq<Action>)
    requires Inv(s)
    ensures Run(s, actions).stranded == {} <==> s.stranded == {} && !SomeClockFailed(s, actions)
    decreases |actions|
  {
    if actions != [] {
      ApplyKeepsInv(s, actions[0]);
      ClockStep(s, actions[0]);
      StrandedExactlyByClock(Apply(s, actions[0]), actions[1..]);
    }
  }

  /**
   * After any run from the start, Active segments and live leases correspond one to one exactly if no granted
   * request was followed by a failing clock read; and only then can the transfer be complete.
   */
  lemma HeldExactlyUnlessClockFailed(shape: Shape, content: seq<Byte>, actions: seq<Action>)
    requires shape.Valid() && |content| == shape.total
    ensures Inv(Initial(shape, content))
    ensures var s := Initial(shape, content);
            var t := Run(s, actions);
            && ((forall i: nat | i < |t.states| :: t.states[i] == Active <==> Held(t, i))
                <==> !SomeClockFailed(s, actions))
            && (IsComplete(t) ==> !SomeClockFailed(s, actions))
  {
    InitialInv(shape, content);
    var s := Initial(shape, content);
    StrandedExactlyByClock(s, actions);
    ActiveExactlyWhenHeld(Run(s, actions));
    StrandedForever(Run(s, actions), []);
  }

  /**
   * A granted request with a failing clock read does strand its segment: it is Active, no lease holds it, and so it
   * stays in every continuation, which therefore never completes.
   */
  lemma FailingClockStrands(s: State, id: nat, i: nat, later: seq<Action>)
    requires Inv(s) && i < |s.states| && s.states[i] == Pending && id !in s.leases
    ensures 0 <= s.shape.Len(i)
    ensures var a := Reserve(id, s.shape.Start(i), s.shape.Len(i), false);
            && ClockFailed(s, a) && Inv(Apply(s, a)) && Apply(s, a).leases == s.leases
            && var t := Run(Apply(s, a), later);
               i < |t.states| && t.states[i] == Active && !Held(t, i) && !IsComplete(t)
  {
    CountBounds(s.shape, i);
    var a := Reserve(id, s.shape.Start(i), s.shape.Len(i), false);
    assert s.shape.Covers(i, a.offset, a.len);
    var found := SegmentAt(s.shape, a.offset, a.len);
    StartQuotient(s.shape, i);
    StartQuotient(s.shape, found.value);
    ApplyKeepsInv(s, a);
    StrandedForever(Apply(s, a), later);
    NobodyHolds(Run(Apply(s, a), later), i);
  }

  lemma NobodyHolds(t: State, i: nat)
    requires Inv(t) && i in t.stranded
    ensures i < |t.states| && t.states[i] == Active && !Held(t, i)
  {
    assert Tagged(t, i);
    if Held(t, i) {
      var id :| id in t.leases && t.leases[id].index == i;
      LeaseFacts(t, id);
    }
  }

  lemma CommittedStays(s: State, a: Action, i: nat)
    requires Inv(s) && i in s.committed
    ensures i in Apply(s, a).committed && Apply(s, a).committed[i] == s.committed[i]
  {
    if a.Commit? && a.id in s.leases {
      LeaseFacts(s, a.id);
    }
  }

  /** Committed bytes are immutable: no later action changes the record, the state or the bytes in the file. */
  lemma {:induction false} CommittedBytesNeverChange(s: State, actions: seq<Action>, i: nat)
    requires Inv(s) && i in s.committed
    ensures var t := Run(s, actions);
            && i in t.committed && t.committed[i] == s.committed[i]
            && i < |t.states| && t.states[i] == Complete && Holds(t, i, s.committed[i])
    decreases |actions|
  {
    if actions == [] {
      assert Tagged(s, i) && CommitStored(s, i);
    } else {
      ApplyKeepsInv(s, actions[0]);
      CommittedStays(s, actions[0], i);
      CommittedBytesNeverChange(Apply(s, actions[0]), actions[1..], i);
    }
  }

  /** The committed payloads of the first `n` segments, in file order. */
  ghost function Payload(s: State, n: nat): seq<Byte>
    requires forall i: nat | i < n :: i in s.committed
  {
    if n == 0 then [] else Payload(s, n - 1) + s.committed[n - 1]
  }

  /** The file up to where segment `n` starts or the file ends. */
  function FileFront(s: State, n: nat): seq<Byte>
    requires |s.file| == s.shape.total
  {
    s.file[..Min(s.shape.Start(n), s.shape.total)]
  }

  lemma {:induction false} PayloadIsFront(s: State, n: nat)
    requires Counted(s) && Stored(s) && n <= |s.states| && forall i: nat | i < n :: i in s.committed
    ensures Payload(s, n) == FileFront(s, n)
  {
    if n > 0 {
      PayloadIsFront(s, n - 1);
      FrontGrows(s, n - 1);
    }
  }

  lemma FrontGrows(s: State, i: nat)
    requires Counted(s) && Stored(s) && i in s.committed && i < |s.states|
    ensures FileFront(s, i + 1) == FileFront(s, i) + s.committed[i]
  {
    CountBounds(s.shape, i);
    var mid, bytes := s.shape.Start(i), s.committed[i];
    assert CommitStored(s, i);
    assert s.file[..mid + |bytes|] == s.file[..mid] + s.file[mid..mid + |bytes|];
  }

  lemma SomeHeldSegment(s: State) returns (i: nat)
    requires Inv(s) && s.leases != map[]
    ensures i < |s.states| && s.states[i] == Active
  {
    var id :| id in s.leases;
    LeaseFacts(s, id);
    i := s.leases[id].index;
  }

  /**
   * Once complete, the file is exactly the committed payloads in order, no lease is left, and every action
   * of any worker is refused: the state never changes again.
   */
  lemma {:induction false} CompleteIsFinal(s: State, actions: seq<Action>)
    requires Inv(s) && IsComplete(s)
    ensures s.leases == map[]
    ensures forall i: nat | i < |s.states| :: i in s.committed
    ensures s.file == Payload(s, |s.states|)
    ensures Run(s, actions) == s
    decreases |actions|
  {
    CompleteExactlyWhenCovered(s);
    if s.leases != map[] {
      var i := SomeHeldSegment(s);
    }
    forall i: nat | i < |s.states|
      ensures i in s.committed
    {
      assert Tagged(s, i);
    }
    PayloadIsFront(s, |s.states|);
    CountBounds(s.shape, |s.states|);
    if actions != [] {
      assert Apply(s, actions[0]) == s;
      CompleteIsFinal(s, actions[1..]);
    }
  }

  // ----- What one holder writes is what gets committed, whoever runs in between

  /** The blocks that the holder of `id` wrote during a run, in order. */
  function BlocksOf(actions: seq<Action>, id: nat): seq<Byte> {
    if actions == [] then []
    else (if actions[0].Write? && actions[0].id == id then actions[0].block else []) + BlocksOf(actions[1..], id)
  }

  predicate KeepsLease(actions: seq<Action>, id: nat) {
    forall k | 0 <= k < |actions| :: actions[k] != Commit(id) && actions[k] != Drop(id)
  }

  /** Whatever another worker does, this lease keeps its segment and its bytes. */
  lemma OthersLeaveLeaseAlone(s: State, a: Action, id: nat)
    requires Inv(s) && id in s.leases && a != Commit(id) && a != Drop(id)
    requires !(a.Write? && a.id == id)
    ensures var t := Apply(s, a);
            id in t.leases && t.leases[id] == s.leases[id] && t.shape == s.shape
  {
  }

  lemma OwnWriteAppends(s: State, id: nat, block: seq<Byte>)
    requires Inv(s) && id in s.leases
    requires |s.leases[id].written| + |block| <= s.shape.Len(s.leases[id].index)
    ensures var t := Apply(s, Write(id, block));
            && id in t.leases && t.shape == s.shape
            && t.leases[id] == Lease(s.leases[id].index, s.leases[id].written + block)
  {
  }

  lemma HolderStep(s: State, a: Action, id: nat, own: seq<Byte>) returns (t: State)
    requires Inv(s) && id in s.leases && a != Commit(id) && a != Drop(id)
    requires own == if a.Write? && a.id == id then a.block else []
    requires |s.leases[id].written| + |own| <= s.shape.Len(s.leases[id].index)
    ensures t == Apply(s, a) && Inv(t) && t.shape == s.shape
    ensures id in t.leases && t.leases[id] == Lease(s.leases[id].index, s.leases[id].written + own)
  {
    t := Apply(s, a);
    ApplyKeepsInv(s, a);
    if a.Write? && a.id == id {
      OwnWriteAppends(s, id, own);
    } else {
      OthersLeaveLeaseAlone(s, a, id);
      assert s.leases[id].written + own == s.leases[id].written;
    }
  }

  /** The other workers' actions in between make no difference to a holder's own bytes. */
  lemma {:induction false} HolderIsUndisturbed(s: State, actions: seq<Action>, id: nat)
    requires Inv(s) && id in s.leases && KeepsLease(actions, id)
    requires |s.leases[id].written| + |BlocksOf(actions, id)| <= s.shape.Len(s.leases[id].index)
    ensures var t := Run(s, actions);
            && id in t.leases
            && t.leases[id] == Lease(s.leases[id].index, s.leases[id].written + BlocksOf(actions, id))
    decreases |actions|
  {
    if actions == [] {
    } else {
      var own := if actions[0].Write? && actions[0].id == id then actions[0].block else [];
      var rest := BlocksOf(actions[1..], id);
      assert BlocksOf(actions, id) == own + rest;
      assert KeepsLease(actions[1..], id);
      var t := HolderStep(s, actions[0], id, own);
      assert Run(s, actions) == Run(t, actions[1..]);
      HolderIsUndisturbed(t, actions[1..], id);
      ConcatAssociative(s.leases[id].written, own, rest);
    }
  }

  lemma FullLeaseCommits(s: State, id: nat)
    requires Inv(s) && id in s.leases
    requires |s.leases[id].written| == s.shape.Len(s.leases[id].index)
    ensures var i, t := s.leases[id].index, Apply(s, Commit(id));
            && Inv(t) && id !in t.leases
            && i < |t.states| && t.states[i] == Complete
            && i in t.committed && t.committed[i] == s.leases[id].written
            && Holds(t, i, s.leases[id].written)
  {
    CommitSucceeds(s, id);
    LeaseFacts(s, id);
    CommitKeepsInv(s, id);
  }

  lemma {:induction false} ReachFull(s: State, id: nat, actions: seq<Action>, i: nat, bytes: seq<Byte>)
    returns (u: State)
    requires Inv(s) && id in s.leases && s.leases[id] == Lease(i, []) && KeepsLease(actions, id)
    requires bytes == BlocksOf(actions, id) && |bytes| == s.shape.Len(i)
    ensures u == Run(s, actions) && Inv(u) && id in u.leases
    ensures u.leases[id] == Lease(i, bytes) && |bytes| == u.shape.Len(i)
  {
    u := Run(s, actions);
    HolderIsUndisturbed(s, actions, id);
    RunKeepsShape(s, actions);
    assert [] + bytes == bytes;
  }

  /** So an upload whose blocks add up to the segment commits exactly those bytes into its place in the file. */
  lemma UploadCommitsItsBlocks(s: State, id: nat, actions: seq<Action>, i: nat, bytes: seq<Byte>) returns (t: State)
    requires Inv(s) && id in s.leases && s.leases[id] == Lease(i, []) && KeepsLease(actions, id)
    requires bytes == BlocksOf(actions, id) && |bytes| == s.shape.Len(i)
    ensures t == Apply(Run(s, actions), Commit(id))
    ensures i in t.committed && t.committed[i] == bytes
    ensures Holds(t, i, bytes) && i < |t.states| && t.states[i] == Complete && id !in t.leases
  {
    var u := ReachFull(s, id, actions, i, bytes);
    FullLeaseCommits(u, id);
    t := Apply(u, Commit(id));
  }

  lemma {:induction false} RunKeepsShape(s: State, actions: seq<Action>)
    requires Inv(s)
    ensures Run(s, actions).shape == s.shape
    decreases |actions|
  {
    if actions != [] {
      ApplyKeepsInv(s, actions[0]);
      RunKeepsShape(Apply(s, actions[0]), actions[1..]);
    }
  }

  // ----- End to end

  /** What was written under a lease, and what was committed, is what `source` holds there. */
  ghost predicate Mirrors(s: State, source: seq<Byte>) {
    |source| == s.shape.total && Stored(s.(file := source))
  }

  /** A holder writes the bytes of the source that belong where it writes. */
  ghost predicate Truthful(s: State, a: Action, source: seq<Byte>) {
    a.Write? && a.id in s.leases ==>
      var at := s.shape.Start(s.leases[a.id].index) + |s.leases[a.id].written|;
      at + |a.block| <= |source| ==> source[at..at + |a.block|] == a.block
  }

  ghost predicate AllTruthful(s: State, actions: seq<Action>, source: seq<Byte>)
    requires Inv(s)
    decreases |actions|
  {
    if actions == [] then true
    else
      ApplyKeepsInv(s, actions[0]);
      Truthful(s, actions[0], source) && AllTruthful(Apply(s, actions[0]), actions[1..], source)
  }

  lemma MirroredInv(s: State, source: seq<Byte>)
    requires Inv(s) && Mirrors(s, source)
    ensures Inv(s.(file := source))
  {
    var m := s.(file := source);
    SameOwners(s, m);
  }

  lemma SameOwners(s: State, m: State)
    requires Owned(s) && m.states == s.states && m.leases == s.leases && m.holder == s.holder
    requires m.stranded == s.stranded && m.committed == s.committed
    ensures Owned(m)
  {
    forall i: nat | i < |m.states|
      ensures Tagged(m, i)
    {
      assert Tagged(s, i);
    }
    forall k | k in m.leases
      ensures LeaseHolds(m, k)
    {
      assert LeaseHolds(s, k);
    }
    forall i | i in m.holder
      ensures HolderLives(m, i)
    {
      assert HolderLives(s, i);
    }
  }

  /** Every action but a write does the same whatever the file holds. */
  lemma FileDoesNotMatter(s: State, a: Action, source: seq<Byte>)
    requires Inv(s) && Inv(s.(file := source)) && !a.Write?
    ensures Apply(s.(file := source), a) == Apply(s, a).(file := source)
  {
    if a.Commit? {
      CommitWithFile(s, a.id, source);
    }
  }

  lemma CommitWithFile(s: State, id: nat, source: seq<Byte>)
    requires Inv(s) && Inv(s.(file := source))
    ensures Apply(s.(file := source), Commit(id)) == Apply(s, Commit(id)).(file := source)
  {
    if id in s.leases && |s.leases[id].written| == s.shape.Len(s.leases[id].index) {
      CommitSucceeds(s, id);
      CommitSucceeds(s.(file := source), id);
    }
  }

  predicate WriteFits(s: State, id: nat, block: seq<Byte>) {
    id in s.leases && |s.leases[id].written| + |block| <= s.shape.Len(s.leases[id].index)
  }

  /** The holder of `id` has written `bytes` where its lease was up to. */
  function Wrote(s: State, id: nat, bytes: seq<Byte>): State
    requires WriteFits(s, id, bytes) && WriteStart(s, id) + |bytes| <= |s.file|
  {
    var lease := s.leases[id];
    s.(file := Splice(s.file, WriteStart(s, id), bytes),
       leases := s.leases[id := lease.(written := lease.written + bytes)])
  }

  function WriteStart(s: State, id: nat): nat
    requires id in s.leases
  {
    s.shape.Start(s.leases[id].index) + |s.leases[id].written|
  }

  lemma WriteIsWrote(s: State, id: nat, block: seq<Byte>)
    requires Inv(s) && WriteFits(s, id, block)
    ensures WriteStart(s, id) + |block| <= |s.file|
    ensures Apply(s, Write(id, block)) == Wrote(s, id, block) && Inv(Wrote(s, id, block))
  {
    LeaseFacts(s, id);
    WriteKeepsInv(s, id, block);
  }

  lemma WroteWithFile(s: State, id: nat, block: seq<Byte>, source: seq<Byte>)
    requires WriteFits(s, id, block) && Truthful(s, Write(id, block), source)
    requires |source| == |s.file| && WriteStart(s, id) + |block| <= |s.file|
    ensures Wrote(s.(file := source), id, block) == Wrote(s, id, block).(file := source)
  {
    SpliceSame(source, WriteStart(s, id), block);
  }

  lemma WriteWithFile(s: State, id: nat, block: seq<Byte>, source: seq<Byte>)
    requires Inv(s) && Inv(s.(file := source)) && Truthful(s, Write(id, block), source)
    ensures Apply(s.(file := source), Write(id, block)) == Apply(s, Write(id, block)).(file := source)
  {
    if WriteFits(s, id, block) {
      WriteIsWrote(s, id, block);
      WriteIsWrote(s.(file := source), id, block);
      WroteWithFile(s, id, block, source);
    }
  }

  /** Truthful actions do the same to the transfer whose file is the source already. */
  lemma ApplyKeepsMirrors(s: State, a: Action, source: seq<Byte>)
    requires Inv(s) && Mirrors(s, source) && Truthful(s, a, source)
    ensures Mirrors(Apply(s, a), source)
  {
    MirroredInv(s, source);
    ApplyKeepsInv(s.(file := source), a);
    if a.Write? {
      WriteWithFile(s, a.id, a.block, source);
    } else {
      FileDoesNotMatter(s, a, source);
    }
    MirrorsOf(Apply(s, a), Apply(s.(file := source), a), source);
  }

  lemma MirrorsOf(t: State, n: State, source: seq<Byte>)
    requires Inv(n) && n == t.(file := source)
    ensures Mirrors(t, source)
  {
  }

  lemma {:induction false} RunKeepsMirrors(s: State, actions: seq<Action>, source: seq<Byte>)
    requires Inv(s) && Mirrors(s, source) && AllTruthful(s, actions, source)
    ensures Mirrors(Run(s, actions), source)
    decreases |actions|
  {
    if actions != [] {
      ApplyKeepsInv(s, actions[0]);
      ApplyKeepsMirrors(s, actions[0], source);
      RunKeepsMirrors(Apply(s, actions[0]), actions[1..], source);
    }
  }

  lemma {:induction false} PayloadDependsOnRecords(s: State, t: State, n: nat)
    requires s.committed == t.committed && forall i: nat | i < n :: i in s.committed
    ensures Payload(s, n) == Payload(t, n)
  {
    if n > 0 {
      PayloadDependsOnRecords(s, t, n - 1);
    }
  }

  /** A complete transfer whose records agree with a source is that source. */
  lemma MirroredComplete(t: State, source: seq<Byte>)
    requires Inv(t) && Mirrors(t, source) && IsComplete(t)
    ensures t.file == source
  {
    CompleteIsFinal(t, []);
    CountBounds(t.shape, |t.states|);
    PayloadIsFront(t.(file := source), |t.states|);
    PayloadDependsOnRecords(t, t.(file := source), |t.states|);
  }

  lemma InitialMirrors(shape: Shape, content: seq<Byte>, source: seq<Byte>)
    requires shape.Valid() && |content| == |source| == shape.total
    ensures Mirrors(Initial(shape, content), source)
  {
  }

  /** If every holder writes its own part of a source, a complete transfer is that source, byte for byte. */
  lemma FaithfulTransferIsComplete(shape: Shape, content: seq<Byte>, actions: seq<Action>, source: seq<Byte>)
    requires shape.Valid() && |content| == |source| == shape.total
    ensures Inv(Initial(shape, content))
    ensures AllTruthful(Initial(shape, content), actions, source)
            && IsComplete(Run(Initial(shape, content), actions)) ==>
              Run(Initial(shape, content), actions).file == source
  {
    InitialInv(shape, content);
    var s := Initial(shape, content);
    var t := Run(s, actions);
    if AllTruthful(s, actions, source) && IsComplete(t) {
      InitialMirrors(shape, content, source);
      RunKeepsMirrors(s, actions, source);
      MirroredComplete(t, source);
    }
  }

  // ----- The file writer of an upload, as actions

  function Writes(id: nat, blocks: seq<seq<Byte>>): seq<Action> {
    if blocks == [] then [] else [Write(id, blocks[0])] + Writes(id, blocks[1..])
  }

  /** Writing block after block under a lease is one splice of all of them, as `BlockTransfer.WriteBlocks` does it. */
  lemma {:induction false} WritesAreOneSplice(s: State, id: nat, blocks: seq<seq<Byte>>)
    requires Inv(s) && WriteFits(s, id, Flatten(blocks))
    ensures WriteStart(s, id) + |Flatten(blocks)| <= |s.file|
    ensures Run(s, Writes(id, blocks)) == Wrote(s, id, Flatten(blocks))
    decreases |blocks|
  {
    LeaseFacts(s, id);
    if blocks == [] {
      NothingWrote(s, id);
    } else {
      var first, rest := blocks[0], blocks[1..];
      FlattenHead(blocks);
      WriteIsWrote(s, id, first);
      WroteTwice(s, id, first, Flatten(rest));
      WritesAreOneSplice(Wrote(s, id, first), id, rest);
      FirstWrite(s, id, blocks);
    }
  }

  lemma FlattenHead(blocks: seq<seq<Byte>>)
    requires blocks != []
    ensures Flatten(blocks) == blocks[0] + Flatten(blocks[1..])
  {
    assert blocks == [blocks[0]] + blocks[1..];
    FlattenCons(blocks[0], blocks[1..]);
  }

  lemma NothingWrote(s: State, id: nat)
    requires WriteFits(s, id, []) && WriteStart(s, id) <= |s.file|
    ensures Wrote(s, id, []) == s
  {
    assert s.leases[id].written + [] == s.leases[id].written;
  }

  lemma WroteTwice(s: State, id: nat, a: seq<Byte>, b: seq<Byte>)
    requires WriteFits(s, id, a + b) && WriteStart(s, id) + |a + b| <= |s.file|
    ensures var u := Wrote(s, id, a);
            && WriteFits(u, id, b) && WriteStart(u, id) + |b| <= |u.file|
            && Wrote(u, id, b) == Wrote(s, id, a + b)
  {
    var u := Wrote(s, id, a);
    SpliceTwice(s.file, WriteStart(s, id), a, b);
    ConcatAssociative(s.leases[id].written, a, b);
    UpdateTwice(s.leases, id, u.leases[id], Wrote(s, id, a + b).leases[id]);
  }

  lemma UpdateTwice(leases: map<nat, Lease>, id: nat, a: Lease, b: Lease)
    ensures leases[id := a][id := b] == leases[id := b]
  {
  }

  lemma FirstWrite(s: State, id: nat, blocks: seq<seq<Byte>>)
    requires Inv(s) && blocks != [] && Inv(Apply(s, Write(id, blocks[0])))
    ensures Run(s, Writes(id, blocks)) == Run(Apply(s, Write(id, blocks[0])), Writes(id, blocks[1..]))
  {
    assert Writes(id, blocks)[1..] == Writes(id, blocks[1..]);
  }

  // ----- It can always be finished, unless a segment is stranded

  lemma {:induction false} RunConcat(s: State, a: seq<Action>, b: seq<Action>)
    requires Inv(s)
    ensures Run(s, a + b) == Run(Run(s, a), b)
    decreases |a|
  {
    if a == [] {
      assert a + b == b;
    } else {
      var first, rest := a[0], a[1..];
      assert a + b == [first] + (rest + b) && a == [first] + rest;
      ApplyKeepsInv(s, first);
      RunConcat(Apply(s, first), rest, b);
      RunFirst(s, first, rest);
      RunFirst(s, first, rest + b);
    }
  }

  lemma RunFirst(s: State, first: Action, rest: seq<Action>)
    requires Inv(s) && Inv(Apply(s, first))
    ensures Run(s, [first] + rest) == Run(Apply(s, first), rest)
  {
    assert ([first] + rest)[1..] == rest;
  }

  /** `t` is reached from `s` by `actions`, no step of which spoils that the file may become `source`. */
  ghost predicate Leads(s: State, actions: seq<Action>, t: State, source: seq<Byte>) {
    && Inv(s) && t == Run(s, actions) && Inv(t) && t.shape == s.shape && t.stranded == s.stranded
    && (Mirrors(s, source) ==> Mirrors(t, source))
  }

  lemma {:induction false} OneMore(s: State, actions: seq<Action>, t: State, source: seq<Byte>, a: Action)
    returns (longer: seq<Action>, u: State)
    requires Leads(s, actions, t, source) && Truthful(t, a, source) && Apply(t, a).stranded == t.stranded
    ensures u == Apply(t, a) && Leads(s, longer, u, source)
  {
    longer := actions + [a];
    RunConcat(s, actions, [a]);
    ApplyKeepsInv(t, a);
    u := Apply(t, a);
    assert [a][1..] == [] && Run(t, [a]) == u;
    RunKeepsShape(s, longer);
    if Mirrors(s, source) {
      ApplyKeepsMirrors(t, a, source);
    }
  }

  lemma PendingIsGranted(s: State, i: nat, id: nat)
    requires Inv(s) && i < |s.states| && s.states[i] == Pending && id !in s.leases
    ensures 0 <= s.shape.Len(i)
    ensures Apply(s, Reserve(id, s.shape.Start(i), s.shape.Len(i), true))
         == s.(states := s.states[i := Active], leases := s.leases[id := Lease(i, [])], holder := s.holder[i := id])
  {
    CountBounds(s.shape, i);
    assert s.shape.Covers(i, s.shape.Start(i), s.shape.Len(i));
    var found := SegmentAt(s.shape, s.shape.Start(i), s.shape.Len(i));
    StartQuotient(s.shape, i);
    StartQuotient(s.shape, found.value);
  }

  /** The part of the source that belongs to segment `i`. */
  function PartOf(s: State, source: seq<Byte>, i: nat): seq<Byte>
    requires 0 <= s.shape.Len(i) && s.shape.Start(i) + s.shape.Len(i) <= |source|
  {
    source[s.shape.Start(i)..s.shape.Start(i) + s.shape.Len(i)]
  }

  /** One worker takes a Pending segment and writes its part of the source. */
  lemma {:induction false} FillSegment(s: State, actions: seq<Action>, t: State, source: seq<Byte>, i: nat)
    returns (longer: seq<Action>, u: State)
    requires Leads(s, actions, t, source) && |source| == t.shape.total
    requires t.leases == map[] && i < |t.states| && t.states[i] == Pending
    ensures Leads(s, longer, u, source) && u.states == t.states[i := Active]
    ensures u.leases.Keys == {0} && u.leases[0].index == i && |u.leases[0].written| == u.shape.Len(i)
  {
    CountBounds(t.shape, i);
    PendingIsGranted(t, i, 0);
    var a1, t1 := OneMore(s, actions, t, source, Reserve(0, t.shape.Start(i), t.shape.Len(i), true));
    var part := PartOf(t1, source, i);
    OwnWriteAppends(t1, 0, part);
    longer, u := OneMore(s, a1, t1, source, Write(0, part));
    assert [] + part == part;
  }

  /** And commits it. */
  lemma {:induction false} FinishSegment(s: State, actions: seq<Action>, t: State, source: seq<Byte>, i: nat)
    returns (longer: seq<Action>, u: State)
    requires Leads(s, actions, t, source) && |source| == t.shape.total
    requires t.leases == map[] && i < |t.states| && t.states[i] == Pending
    ensures Leads(s, longer, u, source)
    ensures u.leases == map[] && u.states == t.states[i := Complete]
  {
    var a1, t1 := FillSegment(s, actions, t, source, i);
    CommitSucceeds(t1, 0);
    longer, u := OneMore(s, a1, t1, source, Commit(0));
    assert t1.leases - {0} == map[];
  }

  ghost function Unfinished(s: State): set<nat> {
    set i: nat | i < |s.states| && s.states[i] != Complete
  }

  lemma {:induction false} FinishAll(s: State, actions: seq<Action>, t: State, source: seq<Byte>)
    returns (longer: seq<Action>, u: State)
    requires Leads(s, actions, t, source) && |source| == t.shape.total
    requires t.leases == map[] && t.stranded == {}
    ensures Leads(s, longer, u, source) && IsComplete(u)
    decreases Unfinished(t)
  {
    if Unfinished(t) == {} {
      NothingUnfinished(t);
      longer, u := actions, t;
    } else {
      var i :| i in Unfinished(t);
      IdleIsPending(t, i);
      var a1, t1 := FinishSegment(s, actions, t, source, i);
      assert Unfinished(t1) == Unfinished(t) - {i};
      longer, u := FinishAll(s, a1, t1, source);
    }
  }

  lemma IdleIsPending(t: State, i: nat)
    requires Inv(t) && t.leases == map[] && t.stranded == {} && i in Unfinished(t)
    ensures t.states[i] == Pending
  {
    assert Tagged(t, i);
    assert i in t.holder ==> HolderLives(t, i);
  }

  lemma NothingUnfinished(t: State)
    requires Inv(t) && Unfinished(t) == {}
    ensures IsComplete(t)
  {
    CompleteExactlyWhenCovered(t);
    forall i: nat | i < |t.states|
      ensures t.states[i] == Complete
    {
      assert i !in Unfinished(t);
    }
  }

  lemma {:induction false} DropAll(s: State, actions: seq<Action>, t: State, source: seq<Byte>)
    returns (longer: seq<Action>, u: State)
    requires Leads(s, actions, t, source)
    ensures Leads(s, longer, u, source) && u.leases == map[]
    decreases t.leases.Keys
  {
    if t.leases == map[] {
      longer, u := actions, t;
    } else {
      var id :| id in t.leases;
      LeaseFacts(t, id);
      var a1, t1 := OneMore(s, actions, t, source, Drop(id));
      assert t1.leases.Keys == t.leases.Keys - {id};
      longer, u := DropAll(s, a1, t1, source);
    }
  }

  /**
   * From any reachable state some continuation completes the transfer exactly if no segment is stranded; and if what
   * was stored so far is the source's, then with the source as the file.
   */
  lemma {:induction false} CompletableUnlessStranded(s: State, source: seq<Byte>) returns (actions: seq<Action>)
    requires Inv(s) && |source| == s.shape.total
    ensures s.stranded == {} ==> IsComplete(Run(s, actions))
    ensures s.stranded == {} && Mirrors(s, source) ==> Run(s, actions).file == source
    ensures s.stranded != {} ==> forall other: seq<Action> :: !IsComplete(Run(s, other))
  {
    actions := [];
    if s.stranded == {} {
      var a1, t1 := DropAll(s, [], s, source);
      var a2, t2 := FinishAll(s, a1, t1, source);
      actions := a2;
      if Mirrors(s, source) {
        MirroredComplete(t2, source);
      }
    } else {
      forall other: seq<Action>
        ensures !IsComplete(Run(s, other))
      {
        StrandedForever(s, other);
      }
    }
  }
}
