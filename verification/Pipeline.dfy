/** The two-sided pipelines that move one segment through recycled buffers. */
module Pipeline {
  import opened Base

  // One side fills empty buffers in order, the other drains full ones in order; two bounded channels connect them.
  // Either side may hit an I/O fault at any moment, and a side that ends drops its ends of both channels.

  /** Who owns the file: a download reads it in the producer, an upload writes it in the consumer. */
  datatype Mode = Download | Upload

  datatype Producer = Idle | Empty | Full(block: seq<Byte>) | Finished | Broken

  datatype Consumer = Waiting | Taken(block: seq<Byte>) | Drained | Ended | Failed

  /**
   * `data` is what the segment's source yields. `returned` counts the buffers that went back to the pool and
   * `faults` records whether an I/O operation ever failed.
   */
  datatype State = State(
    mode: Mode,
    capacity: nat,
    blockBytes: nat,
    data: seq<Byte>,
    position: nat,
    producer: Producer,
    payload: seq<seq<Byte>>,
    recycle: nat,
    consumer: Consumer,
    out: seq<Byte>,
    returned: nat,
    faults: bool
  )

  datatype Action =
    | TakeEmpty
    | Fill(ok: bool)
    | SendFull
    | FinishProducer
    | TakeFull
    | Drain(ok: bool, reached: nat)
    | Recycle
    | EndConsumer

  function Initial(mode: Mode, capacity: nat, blockBytes: nat, data: seq<Byte>): State {
    State(mode, capacity, blockBytes, data, 0, Idle, [], capacity, Waiting, [], 0, false)
  }

  predicate ProducerEnded(s: State) {
    s.producer.Finished? || s.producer.Broken?
  }

  predicate ConsumerEnded(s: State) {
    s.consumer.Ended? || s.consumer.Failed?
  }

  /** The receiving end of the recycle channel outlives a finished upload producer: the awaiting function owns it. */
  predicate RecycleOpen(s: State) {
    !(s.producer.Broken? || (s.mode.Download? && s.producer.Finished?))
  }

  /** The producer gives up; `held` buffers in its hands and the queued empty ones return to the pool. */
  function Break(s: State, held: nat): State {
    s.(producer := Broken, recycle := 0, returned := s.returned + s.recycle + held)
  }

  /** The consumer gives up; the buffer in its hands and the queued full ones return to the pool. */
  function Fail(s: State, held: nat): State {
    s.(consumer := Failed, payload := [], returned := s.returned + |s.payload| + held)
  }

  function Count(s: State): nat
    requires s.position <= |s.data|
  {
    Min(|s.data| - s.position, s.blockBytes)
  }

  /** Whether the side that performs `a` has reached it and would not block. */
  predicate Enabled(s: State, a: Action) {
    match a
    case TakeEmpty => s.producer == Idle && s.position < |s.data| && (s.recycle > 0 || ConsumerEnded(s))
    case Fill(_) => s.producer == Empty && s.position < |s.data|
    case SendFull => s.producer.Full? && (|s.payload| < s.capacity || ConsumerEnded(s))
    case FinishProducer => s.producer == Idle && s.position >= |s.data|
    case TakeFull => s.consumer == Waiting && s.payload != []
    case Drain(ok, reached) => s.consumer.Taken? && reached <= |s.consumer.block|
    case Recycle => s.consumer == Drained && (s.recycle < s.capacity || !RecycleOpen(s))
    case EndConsumer => s.consumer == Waiting && s.payload == [] && ProducerEnded(s)
  }

  function Apply(s: State, a: Action): State
    requires Enabled(s, a)
  {
    match a
    case TakeEmpty =>
      if s.recycle > 0 then s.(recycle := s.recycle - 1, producer := Empty)
      else Break(s, 0)
    case Fill(ok) =>
      if ok then s.(producer := Full(s.data[s.position..s.position + Count(s)]))
      else Break(s, 1).(faults := true)
    case SendFull =>
      var block := s.producer.block;
      if ConsumerEnded(s) then Break(s, 1)
      else s.(payload := s.payload + [block], position := s.position + |block|, producer := Idle)
    case FinishProducer =>
      var done := s.(producer := Finished);
      if RecycleOpen(done) then done else done.(recycle := 0, returned := s.returned + s.recycle)
    case TakeFull => s.(payload := s.payload[1..], consumer := Taken(s.payload[0]))
    case Drain(ok, reached) =>
      var block := s.consumer.block;
      // a failing write may have stored a part of the block, and a failing clock read comes after all of it
      if ok then s.(out := s.out + block, consumer := Drained)
      else Fail(s, 1).(out := s.out + block[..reached], faults := true)
    case Recycle =>
      if RecycleOpen(s) then s.(recycle := s.recycle + 1, consumer := Waiting)
      else if s.mode.Download? then s.(returned := s.returned + 1, consumer := Waiting)
      else Fail(s, 1)
    case EndConsumer =>
      if s.mode.Download? || |s.out| == |s.data| then s.(consumer := Ended) else Fail(s, 0)
  }

  function HeldByProducer(s: State): nat {
    if s.producer.Empty? || s.producer.Full? then 1 else 0
  }

  function HeldByConsumer(s: State): nat {
    if s.consumer.Taken? || s.consumer.Drained? then 1 else 0
  }

  function InHand(s: State): seq<Byte> {
    if s.consumer.Taken? then s.consumer.block else []
  }

  /** Every buffer is in exactly one place, and none goes back before a side has ended. */
  predicate Conserved(s: State) {
    && s.recycle + |s.payload| + HeldByProducer(s) + HeldByConsumer(s) + s.returned == s.capacity
    && (s.returned > 0 ==> ProducerEnded(s) || ConsumerEnded(s))
  }

  /** What was put out, is in hand and is queued is the source read so far, in order. */
  ghost predicate Flows(s: State) {
    && s.position <= |s.data|
    && (s.producer.Empty? ==> s.position < |s.data|)
    && (s.producer.Full? ==> s.position < |s.data| && s.producer.block == s.data[s.position..s.position + Count(s)])
    && (s.producer.Finished? ==> s.position == |s.data|)
    && (if s.consumer.Failed? then s.payload == [] && s.out <= s.data[..s.position]
        else s.out + InHand(s) + Flatten(s.payload) == s.data[..s.position])
  }

  /** A side gives up exactly after a fault, its own or the other one's. */
  predicate Blameless(s: State) {
    && (s.producer.Broken? || s.consumer.Failed? <==> s.faults)
    && (s.consumer.Ended? ==> s.payload == [] && ProducerEnded(s))
    && (s.consumer.Ended? && s.mode.Upload? ==> |s.out| == |s.data|)
  }

  predicate Parameters(s: State) {
    s.capacity > 0 && s.blockBytes > 0
  }

  ghost predicate Inv(s: State) {
    Parameters(s) && Conserved(s) && Flows(s) && Blameless(s)
  }

  lemma {:induction false} InitialInv(mode: Mode, capacity: nat, blockBytes: nat, data: seq<Byte>)
    requires capacity > 0 && blockBytes > 0
    ensures Inv(Initial(mode, capacity, blockBytes, data))
  {
  }

  lemma {:induction false} PrefixStep<T>(out: seq<T>, hand: seq<T>, rest: seq<T>, whole: seq<T>, n: nat)
    requires out + hand + rest == whole && n <= |hand|
    ensures out + hand[..n] <= whole
  {
    assert out + hand[..n] == whole[..|out| + n];
  }

  lemma {:induction false} ApplyKeepsConserved(s: State, a: Action)
    requires Inv(s) && Enabled(s, a)
    ensures Conserved(Apply(s, a)) && Blameless(Apply(s, a))
  {
    if a.EndConsumer? && s.producer.Finished? {
      assert s.data[..s.position] == s.data;
    }
  }

  lemma {:induction false} QueueGrows<T>(front: seq<T>, queue: seq<seq<T>>, block: seq<T>, data: seq<T>, position: nat)
    requires position + |block| <= |data| && block == data[position..position + |block|]
    requires front + Flatten(queue) == data[..position]
    ensures front + Flatten(queue + [block]) == data[..position + |block|]
  {
    FlattenSnoc(queue, block);
    ConcatAssociative(front, Flatten(queue), block);
    CutFurther(data, position, position + |block|);
  }

  lemma {:induction false} QueueShrinks<T>(front: seq<T>, queue: seq<seq<T>>)
    requires queue != []
    ensures front + [] + Flatten(queue) == front + queue[0] + Flatten(queue[1..])
  {
    FlattenCons(queue[0], queue[1..]);
    assert queue == [queue[0]] + queue[1..];
    assert front + [] == front;
    ConcatAssociative(front, queue[0], Flatten(queue[1..]));
  }

  lemma {:induction false} SendKeepsFlows(s: State)
    requires Flows(s) && Enabled(s, SendFull) && !ConsumerEnded(s)
    ensures Flows(Apply(s, SendFull))
  {
    QueueGrows(s.out + InHand(s), s.payload, s.producer.block, s.data, s.position);
  }

  lemma {:induction false} SendToNobodyKeepsFlows(s: State)
    requires Flows(s) && Enabled(s, SendFull) && ConsumerEnded(s)
    ensures Flows(Apply(s, SendFull))
  {
  }

  lemma {:induction false} TakeFullKeepsFlows(s: State)
    requires Inv(s) && Enabled(s, TakeFull)
    ensures Flows(Apply(s, TakeFull))
  {
    QueueShrinks(s.out, s.payload);
  }

  lemma {:induction false} DrainKeepsFlows(s: State, ok: bool, reached: nat)
    requires Inv(s) && Enabled(s, Drain(ok, reached))
    ensures Flows(Apply(s, Drain(ok, reached)))
  {
    if ok {
      assert s.out + s.consumer.block + [] == s.out + s.consumer.block;
    } else {
      PrefixStep(s.out, s.consumer.block, Flatten(s.payload), s.data[..s.position], reached);
    }
  }

  lemma {:induction false} RestKeepsFlows(s: State, a: Action)
    requires Flows(s) && Enabled(s, a) && (a.Recycle? || a.EndConsumer?)
    ensures Flows(Apply(s, a))
  {
    PrefixStep(s.out, [], Flatten(s.payload), s.data[..s.position], 0);
  }

  lemma {:induction false} ApplyKeepsFlows(s: State, a: Action)
    requires Inv(s) && Enabled(s, a)
    ensures Flows(Apply(s, a))
  {
    match a
    case SendFull => if ConsumerEnded(s) { SendToNobodyKeepsFlows(s); } else { SendKeepsFlows(s); }
    case TakeFull => TakeFullKeepsFlows(s);
    case Drain(ok, reached) => DrainKeepsFlows(s, ok, reached);
    case Recycle => RestKeepsFlows(s, a);
    case EndConsumer => RestKeepsFlows(s, a);
    case _ =>
  }

  lemma {:induction false} ApplyKeepsInv(s: State, a: Action, t: State)
    requires Inv(s) && Enabled(s, a) && t == Apply(s, a)
    ensures Inv(t)
  {
    ApplyKeepsConserved(s, a);
    ApplyKeepsFlows(s, a);
  }

  /** Every state that some interleaving of the two sides reaches. */
  ghost predicate Reaches(s: State, actions: seq<Action>, t: State)
    decreases |actions|
  {
    if actions == [] then s == t
    else Enabled(s, actions[0]) && Reaches(Apply(s, actions[0]), actions[1..], t)
  }

  lemma {:induction false} ReachedInv(s: State, actions: seq<Action>, t: State)
    requires Inv(s) && Reaches(s, actions, t)
    ensures Inv(t) && t.data == s.data && t.mode == s.mode && t.capacity == s.capacity
    decreases |actions|
  {
    if actions != [] {
      ApplyKeepsInv(s, actions[0], Apply(s, actions[0]));
      ReachedInv(Apply(s, actions[0]), actions[1..], t);
    }
  }

  predicate FitsBuffer(s: State, block: seq<Byte>) {
    0 < |block| <= s.blockBytes
  }

  predicate WithinBuffers(s: State) {
    && (s.producer.Full? ==> FitsBuffer(s, s.producer.block))
    && (forall k | 0 <= k < |s.payload| :: FitsBuffer(s, s.payload[k]))
    && (s.consumer.Taken? ==> FitsBuffer(s, s.consumer.block))
  }

  lemma {:induction false} StepWithinBuffers(s: State, a: Action)
    requires Parameters(s) && s.position <= |s.data| && WithinBuffers(s) && Enabled(s, a)
    ensures WithinBuffers(Apply(s, a)) && Apply(s, a).blockBytes == s.blockBytes
  {
  }

  lemma {:induction false} StayWithinBuffers(s: State, actions: seq<Action>, t: State)
    requires Inv(s) && WithinBuffers(s) && Reaches(s, actions, t)
    ensures WithinBuffers(t) && t.blockBytes == s.blockBytes
    decreases |actions|
  {
    if actions != [] {
      StepWithinBuffers(s, actions[0]);
      ApplyKeepsInv(s, actions[0], Apply(s, actions[0]));
      StayWithinBuffers(Apply(s, actions[0]), actions[1..], t);
    }
  }

  /** At any moment no block under way is empty, and each fits into one buffer. */
  lemma {:induction false} BlocksFitBuffers(mode: Mode, capacity: nat, blockBytes: nat, data: seq<Byte>,
                                            actions: seq<Action>, s: State)
    requires capacity > 0 && blockBytes > 0
    requires Reaches(Initial(mode, capacity, blockBytes, data), actions, s)
    ensures WithinBuffers(s) && s.blockBytes == blockBytes
  {
    InitialInv(mode, capacity, blockBytes, data);
    StayWithinBuffers(Initial(mode, capacity, blockBytes, data), actions, s);
  }

  /** A full block leaves only the last part of the data for a shorter one. */
  lemma {:induction false} FilledBlock(s: State)
    requires Inv(s) && s.producer.Full?
    ensures s.producer.block <= s.data[s.position..]
    ensures |s.producer.block| == s.blockBytes || s.position + |s.producer.block| == |s.data|
  {
  }

  /** The bounded channels never make a sender wait: there are no more buffers than places. */
  lemma {:induction false} SendersNeverBlock(s: State)
    requires Inv(s)
    ensures s.producer.Full? ==> Enabled(s, SendFull)
    ensures s.consumer == Drained ==> Enabled(s, Recycle)
  {
  }

  /** No deadlock: as long as one of the sides has not ended, one of them can go on. */
  lemma {:induction false} NeverStuck(s: State)
    requires Inv(s) && !(ProducerEnded(s) && ConsumerEnded(s))
    ensures exists a: Action :: Enabled(s, a)
  {
    var next :=
      match s.producer
      case Full(_) => SendFull
      case Empty => Fill(true)
      case _ =>
        (match s.consumer
         case Taken(_) => Drain(true, 0)
         case Drained => Recycle
         case Waiting => if s.payload != [] then TakeFull else if ProducerEnded(s) then EndConsumer
                         else if s.position < |s.data| then TakeEmpty else FinishProducer
         case _ => if s.position < |s.data| then TakeEmpty else FinishProducer);
    assert Enabled(s, next);
  }

  function ProducerWork(p: Producer): nat {
    match p
    case Idle => 3
    case Empty => 2
    case Full(_) => 1
    case _ => 0
  }

  function ConsumerWork(c: Consumer): nat {
    match c
    case Taken(_) => 3
    case Drained => 2
    case Waiting => 1
    case _ => 0
  }

  function Work(s: State): nat
    requires s.position <= |s.data|
  {
    6 * (|s.data| - s.position) + ProducerWork(s.producer) + 3 * |s.payload| + ConsumerWork(s.consumer)
  }

  predicate ByProducer(a: Action) {
    a.TakeEmpty? || a.Fill? || a.SendFull? || a.FinishProducer?
  }

  /** The block that the producer is about to send is a further part of the data. */
  predicate BlockFits(s: State) {
    && s.position <= |s.data|
    && (s.producer.Full? ==> 0 < |s.producer.block| <= |s.data| - s.position)
  }

  lemma {:induction false} BlocksFit(s: State)
    requires Parameters(s) && Flows(s)
    ensures BlockFits(s)
  {
  }

  lemma {:induction false} ProducerWorks(s: State, a: Action)
    requires BlockFits(s) && Enabled(s, a) && ByProducer(a)
    ensures Apply(s, a).position <= |Apply(s, a).data| && Work(Apply(s, a)) < Work(s)
  {
  }

  lemma {:induction false} ConsumerWorks(s: State, a: Action)
    requires BlockFits(s) && Enabled(s, a) && !ByProducer(a)
    ensures Apply(s, a).position <= |Apply(s, a).data| && Work(Apply(s, a)) < Work(s)
  {
  }

  /** Every step of either side uses up work, so every run comes to an end. */
  lemma {:induction false} EveryStepIsProgress(s: State, a: Action)
    requires Inv(s) && Enabled(s, a)
    ensures Inv(Apply(s, a)) && Work(Apply(s, a)) < Work(s)
  {
    BlocksFit(s);
    if ByProducer(a) {
      ProducerWorks(s, a);
    } else {
      ConsumerWorks(s, a);
    }
    ApplyKeepsInv(s, a, Apply(s, a));
  }

  predicate Fails(a: Action) {
    (a.Fill? || a.Drain?) && !a.ok
  }

  /** A fault is recorded exactly if some I/O operation of the run failed. */
  lemma {:induction false} FaultsAreFailures(s: State, actions: seq<Action>, t: State)
    requires Reaches(s, actions, t)
    ensures t.faults <==> s.faults || exists a :: a in actions && Fails(a)
    decreases |actions|
  {
    if actions != [] {
      FaultsAreFailures(Apply(s, actions[0]), actions[1..], t);
      assert actions == [actions[0]] + actions[1..];
      assert Apply(s, actions[0]).faults <==> s.faults || Fails(actions[0]);
    }
  }

  /** What a step puts out: the whole block, or the part of it that a failing operation got through. */
  function PutOut(s: State, a: Action): seq<Byte>
    requires Enabled(s, a)
  {
    match a
    case Drain(ok, reached) => if ok then InHand(s) else InHand(s)[..reached]
    case _ => []
  }

  function AllPutOut(s: State, actions: seq<Action>, t: State): seq<Byte>
    requires Reaches(s, actions, t)
    decreases |actions|
  {
    if actions == [] then []
    else PutOut(s, actions[0]) + AllPutOut(Apply(s, actions[0]), actions[1..], t)
  }

  lemma {:induction false} OutputIsWhatWasPutOut(s: State, actions: seq<Action>, t: State)
    requires Reaches(s, actions, t)
    ensures t.out == s.out + AllPutOut(s, actions, t)
    decreases |actions|
  {
    if actions != [] {
      var u := Apply(s, actions[0]);
      OutputIsWhatWasPutOut(u, actions[1..], t);
      assert u.out == s.out + PutOut(s, actions[0]);
      ConcatAssociative(s.out, PutOut(s, actions[0]), AllPutOut(u, actions[1..], t));
    }
  }

  /** No buffer stays in a channel whose receiver is gone, and an upload keeps its buffers until something fails. */
  predicate Collected(s: State) {
    && (s.producer.Broken? || (s.mode.Download? && s.producer.Finished?) ==> s.recycle == 0)
    && (s.mode.Upload? && s.returned > 0 ==> s.faults)
  }

  lemma {:induction false} StepCollects(s: State, a: Action)
    requires Blameless(s) && Collected(s) && Enabled(s, a) && s.position <= |s.data|
    requires s.consumer.Waiting? && s.payload == [] && s.producer.Finished? ==> |s.out| == |s.data|
    ensures Collected(Apply(s, a))
  {
  }

  lemma {:induction false} RunCollects(s: State, actions: seq<Action>, t: State)
    requires Inv(s) && Collected(s) && Reaches(s, actions, t)
    ensures Collected(t)
    decreases |actions|
  {
    if actions != [] {
      AllOut(s);
      StepCollects(s, actions[0]);
      ApplyKeepsInv(s, actions[0], Apply(s, actions[0]));
      RunCollects(Apply(s, actions[0]), actions[1..], t);
    }
  }

  lemma {:induction false} AllOut(s: State)
    requires Inv(s)
    ensures s.consumer.Waiting? && s.payload == [] && s.producer.Finished? ==> |s.out| == |s.data|
  {
  }

  /** In an upload whose receiving side gave up, the writer stops after the block it holds. */
  lemma {:induction false} WriterGivesUp(s: State)
    requires Inv(s) && s.consumer.Drained? && Enabled(s, Recycle)
    ensures Apply(s, Recycle).consumer.Failed? <==> s.mode.Upload? && s.producer.Broken?
    ensures !Apply(s, Recycle).consumer.Failed? ==> Apply(s, Recycle).consumer.Waiting?
  {
  }

  /**
   * What every maximal run ends with. The function's result is Ok exactly when both sides succeeded; this happens
   * exactly when no I/O operation failed, and then the whole segment has been put out.
   */
  lemma {:induction false} AtRest(mode: Mode, capacity: nat, blockBytes: nat, data: seq<Byte>, actions: seq<Action>,
                                  s: State)
    requires capacity > 0 && blockBytes > 0
    requires Reaches(Initial(mode, capacity, blockBytes, data), actions, s)
    requires forall a: Action :: !Enabled(s, a)
    ensures ProducerEnded(s) && ConsumerEnded(s)
    ensures s.producer.Finished? && s.consumer.Ended? ==> s.out == data
    ensures s.producer.Finished? && s.consumer.Ended? <==> forall a | a in actions :: !Fails(a)
    ensures s.out <= data
    ensures s.recycle + s.returned == capacity && s.payload == []
    ensures mode.Download? || s.producer.Broken? ==> s.returned == capacity
    ensures mode.Upload? && s.producer.Finished? && s.consumer.Ended? ==> s.recycle == capacity
  {
    InitialInv(mode, capacity, blockBytes, data);
    ReachedInv(Initial(mode, capacity, blockBytes, data), actions, s);
    FaultsAreFailures(Initial(mode, capacity, blockBytes, data), actions, s);
    RunCollects(Initial(mode, capacity, blockBytes, data), actions, s);
    if !(ProducerEnded(s) && ConsumerEnded(s)) {
      NeverStuck(s);
      assert false;
    }
    assert s.data[..s.position] <= s.data;
  }

  /** At any moment, what has been put out is a prefix of the segment: blocks are never reordered, lost or repeated. */
  lemma {:induction false} OutputIsPrefix(mode: Mode, capacity: nat, blockBytes: nat, data: seq<Byte>,
                                          actions: seq<Action>, s: State)
    requires capacity > 0 && blockBytes > 0
    requires Reaches(Initial(mode, capacity, blockBytes, data), actions, s)
    ensures s.out <= data
  {
    InitialInv(mode, capacity, blockBytes, data);
    ReachedInv(Initial(mode, capacity, blockBytes, data), actions, s);
    FlowsPutOutPrefix(s);
  }

  lemma {:induction false} FlowsPutOutPrefix(s: State)
    requires Flows(s)
    ensures s.out <= s.data
  {
    assert s.data[..s.position] <= s.data;
    if !s.consumer.Failed? {
      PrefixStep([], s.out, InHand(s) + Flatten(s.payload), s.data[..s.position], |s.out|);
    }
  }
}
