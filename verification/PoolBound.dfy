/** Who may hold buffers of a transfer's pool, and why it is never exhausted. */
module PoolBound {
  import opened Base
  import opened BufferPools

  // Over HTTP the slots are the request permits: a request starts only while the transfer is installed, and a failed
  // request uninstalls the transfer before it gives its permit back. Over WebTransport the slots are the lanes of the
  // connections whose one-time tokens were consumed: a lane that failed never starts again. A failed request may leave
  // a worker behind that holds on to its buffers for a while.

  datatype Discipline = Permits | Lanes

  /** `Busy` may still acquire `quota` buffers; `Broken` has failed and only gives buffers back. */
  datatype Slot = Free | Busy(held: nat, quota: nat) | Broken(held: nat)

  datatype State = State(
    discipline: Discipline,
    perSlot: nat,
    installed: bool,
    slots: seq<Slot>,
    orphans: nat,
    pool: Counts,
    exhausted: bool
  )

  datatype Action =
    | Begin(slot: nat)
    | Acquire(slot: nat)
    | GiveBack(slot: nat)
    | Finish(slot: nat)
    | Break(slot: nat)
    | Leave(slot: nat)
    | Uninstall
    | OrphanGivesBack

  /** As many buffers as the slots use together: `perSlot` added up once for each slot. */
  function Capacity(slots: nat, perSlot: nat): nat {
    if slots == 0 then 0 else Capacity(slots - 1, perSlot) + perSlot
  }

  function Initial(discipline: Discipline, slots: nat, perSlot: nat): State {
    State(discipline, perSlot, true, seq(slots, _ => Free), 0, Counts(Capacity(slots, perSlot), 0, 0), false)
  }

  predicate Enabled(s: State, a: Action) {
    match a
    case Begin(i) => i < |s.slots| && s.slots[i] == Free && (s.discipline.Permits? ==> s.installed)
    case Acquire(i) => i < |s.slots| && s.slots[i].Busy? && s.slots[i].quota > 0
    case GiveBack(i) => i < |s.slots| && !s.slots[i].Free? && s.slots[i].held > 0
    case Finish(i) => i < |s.slots| && s.slots[i].Busy? && s.slots[i].held == 0
    case Break(i) => i < |s.slots| && s.slots[i].Busy?
    case Leave(i) => i < |s.slots| && s.slots[i].Broken? && s.discipline.Permits? && !s.installed
    case Uninstall => s.installed
    case OrphanGivesBack => s.orphans > 0
  }

  function Apply(s: State, a: Action): State
    requires Enabled(s, a)
  {
    match a
    case Begin(i) => s.(slots := s.slots[i := Busy(0, s.perSlot)])
    case Acquire(i) =>
      var slot, pool := s.slots[i], s.pool.Acquired();
      if pool.None? then s.(exhausted := true)
      else s.(slots := s.slots[i := Busy(slot.held + 1, slot.quota - 1)], pool := pool.value)
    case GiveBack(i) =>
      var slot := s.slots[i];
      s.(slots := s.slots[i := slot.(held := slot.held - 1)], pool := s.pool.Returned(1))
    case Finish(i) => s.(slots := s.slots[i := Free])
    case Break(i) => s.(slots := s.slots[i := Broken(s.slots[i].held)])
    case Leave(i) => s.(slots := s.slots[i := Free], orphans := s.orphans + s.slots[i].held)
    case Uninstall => s.(installed := false)
    case OrphanGivesBack => s.(orphans := s.orphans - 1, pool := s.pool.Returned(1))
  }

  function Held(slots: seq<Slot>): nat {
    if slots == [] then 0
    else Held(slots[1..]) + HeldBy(slots[0])
  }

  function HeldBy(slot: Slot): nat {
    match slot
    case Free => 0
    case Busy(h, _) => h
    case Broken(h) => h
  }

  /** What the slots hold and may still ask for. */
  function Claimed(slots: seq<Slot>): nat {
    if slots == [] then 0
    else Claimed(slots[1..]) + Claim(slots[0])
  }

  function Claim(slot: Slot): nat {
    match slot
    case Free => 0
    case Busy(h, q) => h + q
    case Broken(h) => h
  }

  lemma {:induction false} HeldUpdate(slots: seq<Slot>, i: nat, v: Slot)
    requires i < |slots|
    ensures Held(slots[i := v]) - HeldBy(v) == Held(slots) - HeldBy(slots[i])
  {
    assert slots[i := v][1..] == if i == 0 then slots[1..] else slots[1..][i - 1 := v];
    if i > 0 {
      HeldUpdate(slots[1..], i - 1, v);
    }
  }

  lemma {:induction false} ClaimedUpdate(slots: seq<Slot>, i: nat, v: Slot)
    requires i < |slots|
    ensures Claimed(slots[i := v]) - Claim(v) == Claimed(slots) - Claim(slots[i])
  {
    assert slots[i := v][1..] == if i == 0 then slots[1..] else slots[1..][i - 1 := v];
    if i > 0 {
      ClaimedUpdate(slots[1..], i - 1, v);
    }
  }

  lemma {:induction false} HeldIsClaimed(slots: seq<Slot>)
    ensures Held(slots) <= Claimed(slots)
  {
    if slots != [] {
      HeldIsClaimed(slots[1..]);
    }
  }

  lemma {:induction false} QuotaIsClaimed(slots: seq<Slot>, i: nat)
    requires i < |slots| && slots[i].Busy?
    ensures Held(slots) + slots[i].quota <= Claimed(slots)
  {
    HeldIsClaimed(slots[1..]);
    if i > 0 {
      QuotaIsClaimed(slots[1..], i - 1);
    }
  }

  predicate EachWithin(slots: seq<Slot>, perSlot: nat) {
    forall i | 0 <= i < |slots| :: Claim(slots[i]) <= perSlot
  }

  lemma {:induction false} ClaimsFit(slots: seq<Slot>, perSlot: nat)
    requires EachWithin(slots, perSlot)
    ensures Claimed(slots) <= Capacity(|slots|, perSlot)
  {
    if slots != [] {
      ClaimsFit(slots[1..], perSlot);
    }
  }

  lemma {:induction false} AllFree(slots: seq<Slot>)
    requires forall i | 0 <= i < |slots| :: slots[i] == Free
    ensures Held(slots) == 0 && Claimed(slots) == 0
  {
    if slots != [] {
      AllFree(slots[1..]);
    }
  }

  ghost predicate Inv(s: State) {
    && s.pool.Valid()
    && s.pool.Lent() == Held(s.slots) + s.orphans
    && s.pool.limit == Capacity(|s.slots|, s.perSlot)
    && EachWithin(s.slots, s.perSlot)
    && Claimed(s.slots) + s.orphans <= s.pool.limit
    && (s.installed || s.discipline.Lanes? ==> s.orphans == 0)
    && !s.exhausted
  }

  lemma InitialInv(discipline: Discipline, slots: nat, perSlot: nat)
    ensures Inv(Initial(discipline, slots, perSlot)) && Initial(discipline, slots, perSlot).installed
    ensures forall i | 0 <= i < slots :: Enabled(Initial(discipline, slots, perSlot), Begin(i))
  {
    AllFree(Initial(discipline, slots, perSlot).slots);
  }

  predicate OfSlot(a: Action) {
    !a.Uninstall? && !a.OrphanGivesBack?
  }

  /** A step of one slot changes the sums by what it changes in that slot. */
  lemma SlotSums(s: State, a: Action)
    requires Inv(s) && Enabled(s, a) && OfSlot(a)
    ensures var t := Apply(s, a);
            && |t.slots| == |s.slots|
            && EachWithin(t.slots, s.perSlot)
            && Held(t.slots) - HeldBy(t.slots[a.slot]) == Held(s.slots) - HeldBy(s.slots[a.slot])
            && Claimed(t.slots) - Claim(t.slots[a.slot]) == Claimed(s.slots) - Claim(s.slots[a.slot])
  {
    var t := Apply(s, a);
    assert t.slots == s.slots[a.slot := t.slots[a.slot]];
    HeldUpdate(s.slots, a.slot, t.slots[a.slot]);
    ClaimedUpdate(s.slots, a.slot, t.slots[a.slot]);
  }

  lemma AcquireSucceeds(s: State, i: nat)
    requires Inv(s) && Enabled(s, Acquire(i))
    ensures s.pool.Acquired().Some?
  {
    QuotaIsClaimed(s.slots, i);
  }

  lemma ApplyKeepsInv(s: State, a: Action)
    requires Inv(s) && Enabled(s, a)
    ensures Inv(Apply(s, a))
  {
    var t := Apply(s, a);
    HeldIsClaimed(s.slots);
    if OfSlot(a) {
      if a.Acquire? {
        AcquireSucceeds(s, a.slot);
      }
      SlotSums(s, a);
      if a.Begin? {
        ClaimsFit(t.slots, s.perSlot);
      }
    }
  }

  ghost predicate Reaches(s: State, actions: seq<Action>, t: State)
    decreases |actions|
  {
    if actions == [] then s == t
    else Enabled(s, actions[0]) && Reaches(Apply(s, actions[0]), actions[1..], t)
  }

  lemma {:induction false} ReachedInv(s: State, actions: seq<Action>, t: State)
    requires Inv(s) && Reaches(s, actions, t)
    ensures Inv(t) && t.pool.limit == s.pool.limit && |t.slots| == |s.slots| && t.perSlot == s.perSlot
    decreases |actions|
  {
    if actions != [] {
      ApplyKeepsInv(s, actions[0]);
      ReachedInv(Apply(s, actions[0]), actions[1..], t);
    }
  }

  /** `n` acquisitions in a row. */
  function Acquisitions(slot: nat, n: nat): seq<Action> {
    if n == 0 then [] else [Acquire(slot)] + Acquisitions(slot, n - 1)
  }

  lemma {:induction false} AcquiresAll(s: State, i: nat) returns (t: State)
    requires Inv(s) && i < |s.slots| && s.slots[i].Busy?
    ensures Reaches(s, Acquisitions(i, s.slots[i].quota), t) && i < |t.slots|
    ensures t.slots[i] == Busy(s.slots[i].held + s.slots[i].quota, 0)
    decreases s.slots[i].quota
  {
    var n := s.slots[i].quota;
    if n == 0 {
      t := s;
    } else {
      AcquireSucceeds(s, i);
      ApplyKeepsInv(s, Acquire(i));
      t := AcquiresAll(Apply(s, Acquire(i)), i);
      assert Acquisitions(i, n)[1..] == Acquisitions(i, n - 1);
    }
  }

  /**
   * Whatever the others hold: a free slot of an installed transfer can begin and take all the buffers it works with,
   * one after the other, and every lane can.
   */
  lemma {:induction false} SlotGetsItsBuffers(s: State, i: nat) returns (t: State)
    requires Inv(s) && i < |s.slots| && s.slots[i] == Free && (s.installed || s.discipline.Lanes?)
    ensures Reaches(s, [Begin(i)] + Acquisitions(i, s.perSlot), t)
    ensures Inv(t) && i < |t.slots| && t.slots[i] == Busy(s.perSlot, 0)
  {
    var actions := [Begin(i)] + Acquisitions(i, s.perSlot);
    assert actions[1..] == Acquisitions(i, s.perSlot);
    ApplyKeepsInv(s, Begin(i));
    t := AcquiresAll(Apply(s, Begin(i)), i);
    ReachedInv(s, actions, t);
  }

  function GiveBacks(slot: nat, n: nat): seq<Action> {
    if n == 0 then [Finish(slot)] else [GiveBack(slot)] + GiveBacks(slot, n - 1)
  }

  /** A slot that works can give all its buffers back and be free again. */
  lemma {:induction false} SlotCanFinish(s: State, i: nat) returns (t: State)
    requires Inv(s) && i < |s.slots| && s.slots[i].Busy?
    ensures Reaches(s, GiveBacks(i, s.slots[i].held), t) && t.slots == s.slots[i := Free]
    decreases s.slots[i].held
  {
    var n := s.slots[i].held;
    if n == 0 {
      t := Apply(s, Finish(i));
      assert [Finish(i)][1..] == [];
    } else {
      ApplyKeepsInv(s, GiveBack(i));
      t := SlotCanFinish(Apply(s, GiveBack(i)), i);
      assert GiveBacks(i, n)[1..] == GiveBacks(i, n - 1);
    }
  }

  /** A failed slot never works again: a lane does not restart, and a permit comes back to a transfer that is gone. */
  predicate OutOfUse(s: State, i: nat) {
    i < |s.slots| && (s.slots[i].Broken? || (s.slots[i].Free? && s.discipline.Permits? && !s.installed))
  }

  lemma {:induction false} BrokenNeverWorksAgain(s: State, i: nat, actions: seq<Action>, t: State)
    requires OutOfUse(s, i) || (i < |s.slots| && s.slots[i].Busy? && actions != [] && actions[0] == Break(i))
    requires Reaches(s, actions, t)
    ensures OutOfUse(t, i) && !Enabled(t, Begin(i)) && !Enabled(t, Acquire(i))
    decreases |actions|
  {
    if actions != [] {
      BrokenNeverWorksAgain(Apply(s, actions[0]), i, actions[1..], t);
    }
  }

  /** Once the transfer was removed no request begins any more. */
  lemma {:induction false} NoneBeginsAfterRemoval(s: State, actions: seq<Action>, t: State)
    requires s.discipline.Permits? && (!s.installed || (actions != [] && actions[0] == Uninstall))
    requires Reaches(s, actions, t)
    ensures !t.installed && t.discipline.Permits? && forall i :: !Enabled(t, Begin(i))
    decreases |actions|
  {
    if actions != [] {
      NoneBeginsAfterRemoval(Apply(s, actions[0]), actions[1..], t);
    }
  }

  lemma {:induction false} SomeHolder(slots: seq<Slot>) returns (i: nat)
    requires Held(slots) > 0
    ensures i < |slots| && !slots[i].Free? && slots[i].held > 0
  {
    if HeldBy(slots[0]) > 0 {
      i := 0;
    } else {
      i := SomeHolder(slots[1..]);
      i := i + 1;
    }
  }

  /** From any reachable state all buffers can come back. */
  lemma {:induction false} AllCanComeBack(s: State) returns (actions: seq<Action>, t: State)
    requires Inv(s)
    ensures Reaches(s, actions, t) && Inv(t) && t.pool.Lent() == 0
    decreases s.pool.Lent()
  {
    if s.pool.Lent() == 0 {
      actions, t := [], s;
    } else {
      var a := OrphanGivesBack;
      if s.orphans == 0 {
        var i := SomeHolder(s.slots);
        a := GiveBack(i);
        SlotSums(s, a);
      }
      ApplyKeepsInv(s, a);
      var more: seq<Action>;
      more, t := AllCanComeBack(Apply(s, a));
      actions := [a] + more;
      assert actions[1..] == more;
    }
  }

  /** Six request permits over HTTP; six connections of four lanes over WebTransport. */
  function Slots(discipline: Discipline): nat {
    match discipline
    case Permits => 6
    case Lanes => 6 * 4
  }

  /** Two buffers circulate in an HTTP request, one in a lane. */
  function PerSlot(discipline: Discipline): nat {
    match discipline
    case Permits => 2
    case Lanes => 1
  }

  /** However many slots there are and however many buffers each one uses: a pool of as many buffers never runs dry. */
  lemma NeverExhausted(discipline: Discipline, slots: nat, perSlot: nat, actions: seq<Action>, s: State)
    requires Reaches(Initial(discipline, slots, perSlot), actions, s)
    ensures !s.exhausted
    ensures s.pool.available + s.pool.Lent() == s.pool.created <= Capacity(slots, perSlot)
    ensures forall i | Enabled(s, Acquire(i)) :: s.pool.Acquired().Some?
  {
    InitialInv(discipline, slots, perSlot);
    ReachedInv(Initial(discipline, slots, perSlot), actions, s);
    forall i | Enabled(s, Acquire(i))
      ensures s.pool.Acquired().Some?
    {
      AcquireSucceeds(s, i);
    }
  }

  /** So the pools of 12 and 24 buffers that a transfer is created with are large enough. */
  lemma TransferPoolsSuffice(discipline: Discipline, actions: seq<Action>, s: State)
    requires Reaches(Initial(discipline, Slots(discipline), PerSlot(discipline)), actions, s)
    ensures !s.exhausted && s.pool.created <= s.pool.limit
    ensures |s.slots| == (if discipline.Permits? then 6 else 24) && s.perSlot == (if discipline.Permits? then 2 else 1)
    ensures s.pool.limit == if discipline.Permits? then 12 else 24
  {
    NeverExhausted(discipline, Slots(discipline), PerSlot(discipline), actions, s);
    InitialInv(discipline, Slots(discipline), PerSlot(discipline));
    ReachedInv(Initial(discipline, Slots(discipline), PerSlot(discipline)), actions, s);
    SmallCapacities(Slots(discipline));
  }

  lemma {:induction false} SmallCapacities(slots: nat)
    ensures Capacity(slots, 1) == slots && Capacity(slots, 2) == slots + slots
  {
    if slots > 0 {
      SmallCapacities(slots - 1);
    }
  }

  /** Once the transfer is gone, its orphaned workers can only give buffers back: nothing new is lent. */
  lemma NothingLentAfterTheEnd(s: State, a: Action)
    requires Inv(s) && Enabled(s, a) && !s.installed && s.discipline.Permits?
    ensures !Apply(s, a).installed
    ensures Claimed(Apply(s, a).slots) + Apply(s, a).orphans <= Claimed(s.slots) + s.orphans
  {
    if OfSlot(a) {
      SlotSums(s, a);
      if a.Acquire? {
        AcquireSucceeds(s, a.slot);
      }
    }
  }
}
