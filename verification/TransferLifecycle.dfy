/** How a native transfer ends (file_transfer.rs). */
module TransferLifecycle {
  import opened Base
  import Segments
  import TransferProtocol

  // The steps of complete, cancel, fail, finish-send and cancel-all over one manager, interleaved with each other and
  // with the workers of every transfer ever installed.

  /** Where the received bytes are: in the temporary file, renamed to their final name, or deleted. */
  datatype Disk = PartFile | Replaced | Removed

  datatype Transfer = Send | Receive(segments: TransferProtocol.State, disk: Disk)

  datatype Outcome = Cancelled | Failed

  datatype Event = Confirming(id: nat) | Completed(id: nat) | Ended(id: nat, outcome: Outcome)

  /** Between two steps of an operation. `Cleaning` without an outcome is `cancel_all`, which publishes nothing. */
  datatype Thread =
    | Confirmed(id: nat)
    | Renamed(id: nat)
    | Finished(id: nat)
    | Cleaning(id: nat, result: Option<Outcome>)
    | Announcing(id: nat, outcome: Outcome)

  /**
   * History of a transfer's slot: held, taken by a thread, announced by it, left by `cancel_all` without an event, or
   * left by `finish_send_transfer`.
   */
  datatype Slot = Held | Taken(taker: nat) | Announced | Silenced | LeftAsSend

  datatype State = State(
    transfers: map<nat, Transfer>,
    active: Option<nat>,
    threads: map<nat, Thread>,
    log: seq<Event>,
    slots: map<nat, Slot>
  )

  const IDLE: State := State(map[], None, map[], [], map[])

  /** What a new transfer is for; `content` is what the file system put into the file that was set to its length. */
  datatype Request = Sending | Receiving(shape: Segments.Shape, content: seq<Byte>)

  /** `removed` says whether the file system deletes the file when it is asked to; the answer is not looked at. */
  datatype Action =
    | Install(id: nat, request: Request)
    | Work(id: nat, action: TransferProtocol.Action)
    | StartComplete(t: nat, id: nat)
    | Rename(t: nat)
    | GiveUp(t: nat)
    | TakeComplete(t: nat)
    | TakeEnd(t: nat, id: nat, result: Option<Outcome>)
    | Clean(t: nat, removed: bool)
    | Publish(t: nat)
    | FinishSend(id: nat)

  ghost predicate WellFormed(request: Request) {
    request.Receiving? ==> request.shape.Valid() && |request.content| == request.shape.total
  }

  /** A new transfer has received nothing yet. */
  function NewTransfer(request: Request): Transfer
    requires request.Receiving? ==> request.shape.Valid()
  {
    match request
    case Sending => Send
    case Receiving(shape, content) => Receive(TransferProtocol.Initial(shape, content), PartFile)
  }

  ghost function Apply(s: State, a: Action): State
    requires Inv(s)
  {
    match a
    case Install(id, request) =>
      // identifiers are random and never repeat
      if s.active.Some? || id in s.transfers || !WellFormed(request) then s
      else s.(transfers := s.transfers[id := NewTransfer(request)], active := Some(id), slots := s.slots[id := Held])
    case Work(id, action) =>
      // workers keep the transfer alive after it left the registry
      if id !in s.transfers || s.transfers[id].Send? then s
      else
        assert SegmentsOk(s, id);
        var segments := TransferProtocol.Apply(s.transfers[id].segments, action);
        s.(transfers := s.transfers[id := s.transfers[id].(segments := segments)])
    case StartComplete(t, id) =>
      if t in s.threads || id !in s.transfers || s.transfers[id].Send?
         || !TransferProtocol.IsComplete(s.transfers[id].segments) then s
      else s.(threads := s.threads[t := Confirmed(id)], log := s.log + [Confirming(id)])
    case Rename(t) =>
      if t !in s.threads || !s.threads[t].Confirmed? then s
      else
        var id := s.threads[t].id;
        assert ThreadOk(s, t);
        if s.transfers[id].disk != PartFile then s.(threads := s.threads - {t})
        else
          s.(transfers := s.transfers[id := s.transfers[id].(disk := Replaced)],
             threads := s.threads[t := Renamed(id)])
    case GiveUp(t) =>
      if t !in s.threads || !s.threads[t].Confirmed? then s else s.(threads := s.threads - {t})
    case TakeComplete(t) =>
      if t !in s.threads || !s.threads[t].Renamed? then s
      else
        var id := s.threads[t].id;
        if s.active != Some(id) then s.(threads := s.threads - {t})
        else s.(active := None, threads := s.threads[t := Finished(id)], slots := s.slots[id := Taken(t)])
    case TakeEnd(t, id, result) =>
      if t in s.threads || s.active != Some(id) then s
      else s.(active := None, threads := s.threads[t := Cleaning(id, result)], slots := s.slots[id := Taken(t)])
    case Clean(t, removed) =>
      if t !in s.threads || !s.threads[t].Cleaning? then s
      else
        var id, result := s.threads[t].id, s.threads[t].result;
        assert ThreadOk(s, t);
        var transfer := s.transfers[id];
        var cleaned := if removed && HasPartFile(transfer) then transfer.(disk := Removed) else transfer;
        var u := s.(transfers := s.transfers[id := cleaned]);
        if result.None? then u.(threads := s.threads - {t}, slots := s.slots[id := Silenced])
        else u.(threads := s.threads[t := Announcing(id, result.value)])
    case Publish(t) =>
      if t !in s.threads || !(s.threads[t].Finished? || s.threads[t].Announcing?) then s
      else
        var thread := s.threads[t];
        var event := if thread.Finished? then Completed(thread.id) else Ended(thread.id, thread.outcome);
        s.(threads := s.threads - {t}, log := s.log + [event], slots := s.slots[thread.id := Announced])
    case FinishSend(id) =>
      // for a receive transfer the call fails, but only after the slot was taken
      if s.active != Some(id) then s else s.(active := None, slots := s.slots[id := LeftAsSend])
  }

  predicate HasPartFile(transfer: Transfer) {
    transfer.Receive? && transfer.disk == PartFile
  }

  ghost function Run(s: State, actions: seq<Action>): (r: State)
    requires Inv(s)
    ensures Inv(r)
    decreases |actions|
  {
    if actions == [] then s
    else
      ApplyKeepsInv(s, actions[0]);
      Run(Apply(s, actions[0]), actions[1..])
  }

  predicate IsTerminal(e: Event, id: nat) {
    !e.Confirming? && e.id == id
  }

  /** The Complete, Failed and Cancelled events of one transfer. */
  function Terminals(log: seq<Event>, id: nat): nat {
    if log == [] then 0
    else Terminals(log[..|log| - 1], id) + if IsTerminal(log[|log| - 1], id) then 1 else 0
  }

  predicate Receives(s: State, id: nat) {
    id in s.transfers && s.transfers[id].Receive?
  }

  ghost predicate Covered(s: State, id: nat) {
    Receives(s, id) && TransferProtocol.IsComplete(s.transfers[id].segments)
  }

  ghost predicate ThreadOk(s: State, t: nat)
    requires t in s.threads
  {
    var thread := s.threads[t];
    && thread.id in s.transfers && thread.id in s.slots
    && match thread
       case Confirmed(id) => Covered(s, id)
       case Renamed(id) => Covered(s, id) && s.transfers[id].disk == Replaced
       case Finished(id) => Covered(s, id) && s.transfers[id].disk == Replaced && s.slots[id] == Taken(t)
       case Cleaning(id, _) =>
         s.slots[id] == Taken(t) && (s.transfers[id].Receive? ==> s.transfers[id].disk != Removed)
       case Announcing(id, _) => s.slots[id] == Taken(t)
  }

  ghost predicate TransferOk(s: State, id: nat)
    requires id in s.transfers
  {
    && id in s.slots
    && (s.slots[id] == Held <==> s.active == Some(id))
    && (s.slots[id] == Held && s.transfers[id].Receive? ==> s.transfers[id].disk != Removed)
    && (s.slots[id].Taken? ==> Takes(s, s.slots[id].taker, id))
    && Terminals(s.log, id) == if s.slots[id] == Announced then 1 else 0
  }

  /** Thread `t` has taken the slot of transfer `id` and still has to announce how it ended. */
  predicate Takes(s: State, t: nat, id: nat) {
    && t in s.threads && s.threads[t].id == id
    && (s.threads[t].Finished? || s.threads[t].Cleaning? || s.threads[t].Announcing?)
  }

  ghost predicate SegmentsOk(s: State, id: nat)
    requires id in s.transfers
  {
    s.transfers[id].Receive? ==> TransferProtocol.Inv(s.transfers[id].segments)
  }

  ghost predicate EventOk(s: State, e: Event) {
    && e.id in s.transfers
    && (e.Completed? ==> Covered(s, e.id) && s.transfers[e.id].disk == Replaced)
  }

  ghost predicate Inv(s: State) {
    && (s.active.Some? ==> s.active.value in s.transfers)
    && (forall id {:trigger TransferOk(s, id)} | id in s.transfers :: TransferOk(s, id))
    && (forall id {:trigger SegmentsOk(s, id)} | id in s.transfers :: SegmentsOk(s, id))
    && (forall t {:trigger ThreadOk(s, t)} | t in s.threads :: ThreadOk(s, t))
    && (forall k {:trigger EventOk(s, s.log[k])} | 0 <= k < |s.log| :: EventOk(s, s.log[k]))
  }

  lemma {:induction false} NoEventsNoTerminals(log: seq<Event>, id: nat)
    requires forall k | 0 <= k < |log| :: log[k].id != id
    ensures Terminals(log, id) == 0
    decreases |log|
  {
    if log != [] {
      NoEventsNoTerminals(log[..|log| - 1], id);
    }
  }

  lemma TerminalsSnoc(log: seq<Event>, e: Event, id: nat)
    ensures Terminals(log + [e], id) == Terminals(log, id) + if IsTerminal(e, id) then 1 else 0
  {
    assert (log + [e])[..|log|] == log;
  }

  /** One transfer's record changes in a way that keeps what threads and events rely on. */
  ghost predicate Advances(before: Transfer, after: Transfer) {
    && (before.Send? ==> after == before)
    && (before.Receive? ==>
          && after.Receive?
          && (TransferProtocol.IsComplete(before.segments) ==> after.segments == before.segments)
          && (before.disk != PartFile ==> after.disk == before.disk))
  }

  lemma EventsStay(s: State, t: State)
    requires Inv(s) && t.log == s.log
    requires s.transfers.Keys <= t.transfers.Keys
    requires forall id | id in s.transfers :: Advances(s.transfers[id], t.transfers[id])
    ensures forall k {:trigger EventOk(t, t.log[k])} | 0 <= k < |t.log| :: EventOk(t, t.log[k])
  {
    forall k | 0 <= k < |t.log|
      ensures EventOk(t, t.log[k])
    {
      assert EventOk(s, s.log[k]);
    }
  }

  /** Nobody but a worker touches the segments. */
  lemma SegmentsStay(s: State, t: State)
    requires Inv(s) && t.transfers.Keys == s.transfers.Keys
    requires forall id | id in s.transfers && s.transfers[id].Receive? ::
               t.transfers[id].Receive? && t.transfers[id].segments == s.transfers[id].segments
    requires forall id | id in s.transfers && s.transfers[id].Send? :: t.transfers[id].Send?
    ensures forall id {:trigger SegmentsOk(t, id)} | id in t.transfers :: SegmentsOk(t, id)
  {
    forall id | id in t.transfers
      ensures SegmentsOk(t, id)
    {
      assert SegmentsOk(s, id);
    }
  }

  lemma ApplyKeepsInv(s: State, a: Action)
    requires Inv(s)
    ensures Inv(Apply(s, a))
  {
    match a
    case Install(id, request) => InstallKeepsInv(s, id, request);
    case Work(id, action) => WorkKeepsInv(s, id, action);
    case StartComplete(t, id) => StartCompleteKeepsInv(s, t, id);
    case Rename(t) => RenameKeepsInv(s, t);
    case GiveUp(t) => GiveUpKeepsInv(s, t);
    case TakeComplete(t) => TakeCompleteKeepsInv(s, t);
    case TakeEnd(t, id, result) => TakeEndKeepsInv(s, t, id, result);
    case Clean(t, removed) => CleanKeepsInv(s, t, removed);
    case Publish(t) => PublishKeepsInv(s, t);
    case FinishSend(id) => FinishSendKeepsInv(s, id);
  }

  lemma InstallKeepsInv(s: State, id: nat, request: Request)
    requires Inv(s)
    ensures Inv(Apply(s, Install(id, request)))
  {
    var t := Apply(s, Install(id, request));
    if t != s {
      if request.Receiving? {
        TransferProtocol.InitialInv(request.shape, request.content);
      }
      assert forall k | 0 <= k < |s.log| :: EventOk(s, s.log[k]) && s.log[k].id != id;
      NoEventsNoTerminals(s.log, id);
      EventsStay(s, t);
      forall other | other in t.transfers
        ensures TransferOk(t, other)
      {
        assert other != id ==> TransferOk(s, other);
      }
      forall other | other in t.transfers
        ensures SegmentsOk(t, other)
      {
        assert other != id ==> SegmentsOk(s, other);
      }
      forall th | th in t.threads
        ensures ThreadOk(t, th)
      {
        assert ThreadOk(s, th);
      }
    }
  }

  /** Only the record of transfer `id` changed, and it advanced. */
  lemma RecordKeepsThreads(s: State, t: State, id: nat, th: nat)
    requires Inv(s) && id in s.transfers && th in s.threads && ThreadOk(s, th)
    requires t.slots == s.slots && t.threads == s.threads
    requires id in t.transfers && t.transfers == s.transfers[id := t.transfers[id]]
    requires Advances(s.transfers[id], t.transfers[id])
    requires s.threads[th].Cleaning? && s.threads[th].id == id && t.transfers[id].Receive? ==>
               t.transfers[id].disk != Removed
    ensures ThreadOk(t, th)
  {
  }

  lemma WorkAdvances(before: Transfer, action: TransferProtocol.Action)
    requires before.Receive? && TransferProtocol.Inv(before.segments)
    ensures Advances(before, before.(segments := TransferProtocol.Apply(before.segments, action)))
    ensures TransferProtocol.Inv(TransferProtocol.Apply(before.segments, action))
  {
    TransferProtocol.ApplyKeepsInv(before.segments, action);
    if TransferProtocol.IsComplete(before.segments) {
      TransferProtocol.CompleteIsFinal(before.segments, [action]);
      assert TransferProtocol.Run(before.segments, [action]) == TransferProtocol.Apply(before.segments, action);
    }
  }

  lemma WorkKeepsInv(s: State, id: nat, action: TransferProtocol.Action)
    requires Inv(s)
    ensures Inv(Apply(s, Work(id, action)))
  {
    if id in s.transfers && s.transfers[id].Receive? {
      assert TransferOk(s, id);
      assert SegmentsOk(s, id);
      var t := Apply(s, Work(id, action));
      WorkAdvances(s.transfers[id], action);
      forall other | other in t.transfers
        ensures SegmentsOk(t, other)
      {
        assert SegmentsOk(s, other);
      }
      EventsStay(s, t);
      forall other | other in t.transfers
        ensures TransferOk(t, other)
      {
        assert TransferOk(s, other);
      }
      forall th | th in t.threads
        ensures ThreadOk(t, th)
      {
        assert ThreadOk(s, th);
        RecordKeepsThreads(s, t, id, th);
      }
    }
  }

  lemma StartCompleteKeepsInv(s: State, th: nat, id: nat)
    requires Inv(s)
    ensures Inv(Apply(s, StartComplete(th, id)))
  {
    var t := Apply(s, StartComplete(th, id));
    if t != s {
      forall other | other in t.transfers
        ensures TransferOk(t, other)
      {
        assert TransferOk(s, other);
        TerminalsSnoc(s.log, Confirming(id), other);
      }
      SegmentsStay(s, t);
      assert TransferOk(s, id);
      forall k | k in t.threads
        ensures ThreadOk(t, k)
      {
        assert k != th ==> ThreadOk(s, k);
      }
      forall k | 0 <= k < |t.log|
        ensures EventOk(t, t.log[k])
      {
        assert k < |s.log| ==> EventOk(s, s.log[k]);
      }
    }
  }

  lemma RenameKeepsInv(s: State, th: nat)
    requires Inv(s)
    ensures Inv(Apply(s, Rename(th)))
  {
    if th in s.threads && s.threads[th].Confirmed? {
      var id := s.threads[th].id;
      assert ThreadOk(s, th);
      assert TransferOk(s, id);
      var t := Apply(s, Rename(th));
      if s.transfers[id].disk != PartFile {
        ThreadRemoved(s, t, th);
      } else {
        EventsStay(s, t);
        SegmentsStay(s, t);
        forall other | other in t.transfers
          ensures TransferOk(t, other)
        {
          assert TransferOk(s, other);
        }
        forall k | k in t.threads
          ensures ThreadOk(t, k)
        {
          assert ThreadOk(s, k);
        }
      }
    }
  }

  lemma ThreadRemoved(s: State, t: State, th: nat)
    requires Inv(s) && th in s.threads && (s.threads[th].Confirmed? || s.threads[th].Renamed?)
    requires t == s.(threads := s.threads - {th})
    ensures Inv(t)
  {
    forall k | k in t.threads
      ensures ThreadOk(t, k)
    {
      assert ThreadOk(s, k);
    }
    forall other | other in t.transfers
      ensures TransferOk(t, other)
    {
      assert TransferOk(s, other);
    }
    EventsStay(s, t);
    SegmentsStay(s, t);
  }

  lemma GiveUpKeepsInv(s: State, th: nat)
    requires Inv(s)
    ensures Inv(Apply(s, GiveUp(th)))
  {
    if th in s.threads && s.threads[th].Confirmed? {
      ThreadRemoved(s, s.(threads := s.threads - {th}), th);
    }
  }

  /** The active transfer leaves the registry; whoever takes it is the only one. */
  lemma SlotLeaves(s: State, t: State, id: nat, slot: Slot)
    requires Inv(s) && s.active == Some(id) && t.active == None
    requires t.transfers == s.transfers && t.log == s.log
    requires t.slots == s.slots[id := slot] && slot != Held && slot != Announced
    requires slot.Taken? ==> Takes(t, slot.taker, id) && (slot.taker in s.threads ==> s.threads[slot.taker].Renamed?)
    requires forall k | k in s.threads && !(slot.Taken? && k == slot.taker) ::
               k in t.threads && t.threads[k] == s.threads[k]
    ensures forall other {:trigger TransferOk(t, other)} | other in t.transfers :: TransferOk(t, other)
    ensures forall k {:trigger EventOk(t, t.log[k])} | 0 <= k < |t.log| :: EventOk(t, t.log[k])
    ensures forall k {:trigger ThreadOk(t, k)} | k in s.threads && k in t.threads && t.threads[k] == s.threads[k] ::
              ThreadOk(t, k)
    ensures forall id {:trigger SegmentsOk(t, id)} | id in t.transfers :: SegmentsOk(t, id)
  {
    SegmentsStay(s, t);
    assert TransferOk(s, id);
    forall other | other in t.transfers
      ensures TransferOk(t, other)
    {
      assert TransferOk(s, other);
    }
    EventsStay(s, t);
    forall k | k in s.threads && k in t.threads && t.threads[k] == s.threads[k]
      ensures ThreadOk(t, k)
    {
      assert ThreadOk(s, k);
    }
  }

  lemma TakeCompleteKeepsInv(s: State, th: nat)
    requires Inv(s)
    ensures Inv(Apply(s, TakeComplete(th)))
  {
    if th in s.threads && s.threads[th].Renamed? {
      var id := s.threads[th].id;
      var t := Apply(s, TakeComplete(th));
      assert ThreadOk(s, th);
      if s.active != Some(id) {
        ThreadRemoved(s, t, th);
      } else {
        SlotLeaves(s, t, id, Taken(th));
      }
    }
  }

  lemma TakeEndKeepsInv(s: State, th: nat, id: nat, result: Option<Outcome>)
    requires Inv(s)
    ensures Inv(Apply(s, TakeEnd(th, id, result)))
  {
    if th !in s.threads && s.active == Some(id) {
      var t := Apply(s, TakeEnd(th, id, result));
      assert TransferOk(s, id);
      SlotLeaves(s, t, id, Taken(th));
    }
  }

  lemma FinishSendKeepsInv(s: State, id: nat)
    requires Inv(s)
    ensures Inv(Apply(s, FinishSend(id)))
  {
    if s.active == Some(id) {
      var t := Apply(s, FinishSend(id));
      SlotLeaves(s, t, id, LeftAsSend);
    }
  }

  lemma CleanKeepsInv(s: State, th: nat, removed: bool)
    requires Inv(s)
    ensures Inv(Apply(s, Clean(th, removed)))
  {
    if th in s.threads && s.threads[th].Cleaning? {
      CleanKeepsTransfers(s, th, removed);
      CleanKeepsThreads(s, th, removed);
      CleanKeepsEvents(s, th, removed);
      assert ThreadOk(s, th);
      SegmentsStay(s, Apply(s, Clean(th, removed)));
    }
  }

  lemma CleanKeepsTransfers(s: State, th: nat, removed: bool)
    requires Inv(s) && th in s.threads && s.threads[th].Cleaning?
    ensures var t := Apply(s, Clean(th, removed));
            forall id {:trigger TransferOk(t, id)} | id in t.transfers :: TransferOk(t, id)
  {
    var t := Apply(s, Clean(th, removed));
    assert ThreadOk(s, th);
    forall id | id in t.transfers
      ensures TransferOk(t, id)
    {
      assert TransferOk(s, id);
    }
  }

  lemma CleanKeepsEvents(s: State, th: nat, removed: bool)
    requires Inv(s) && th in s.threads && s.threads[th].Cleaning?
    ensures var t := Apply(s, Clean(th, removed));
            forall k {:trigger EventOk(t, t.log[k])} | 0 <= k < |t.log| :: EventOk(t, t.log[k])
  {
    assert ThreadOk(s, th);
    assert TransferOk(s, s.threads[th].id);
    EventsStay(s, Apply(s, Clean(th, removed)));
  }

  lemma CleanKeepsThreads(s: State, th: nat, removed: bool)
    requires Inv(s) && th in s.threads && s.threads[th].Cleaning?
    ensures var t := Apply(s, Clean(th, removed));
            forall k {:trigger ThreadOk(t, k)} | k in t.threads :: ThreadOk(t, k)
  {
    var t := Apply(s, Clean(th, removed));
    assert ThreadOk(s, th);
    forall k | k in t.threads
      ensures ThreadOk(t, k)
    {
      assert ThreadOk(s, k);
    }
  }

  lemma PublishKeepsInv(s: State, th: nat)
    requires Inv(s)
    ensures Inv(Apply(s, Publish(th)))
  {
    if th in s.threads && (s.threads[th].Finished? || s.threads[th].Announcing?) {
      var t := Apply(s, Publish(th));
      assert ThreadOk(s, th);
      SegmentsStay(s, t);
      PublishKeepsTransfers(s, th);
      forall k | k in t.threads
        ensures ThreadOk(t, k)
      {
        assert ThreadOk(s, k);
      }
      forall k | 0 <= k < |t.log|
        ensures EventOk(t, t.log[k])
      {
        assert k < |s.log| ==> EventOk(s, s.log[k]);
      }
    }
  }

  lemma PublishKeepsTransfers(s: State, th: nat)
    requires Inv(s) && th in s.threads && (s.threads[th].Finished? || s.threads[th].Announcing?)
    ensures var t := Apply(s, Publish(th));
            forall id {:trigger TransferOk(t, id)} | id in t.transfers :: TransferOk(t, id)
  {
    var t := Apply(s, Publish(th));
    assert ThreadOk(s, th);
    forall id | id in t.transfers
      ensures TransferOk(t, id)
    {
      assert TransferOk(s, id);
      TerminalsSnoc(s.log, t.log[|s.log|], id);
    }
  }

  // ----- What every run keeps

  lemma IdleInv()
    ensures Inv(IDLE)
  {
  }

  /** However the operations interleave, a transfer gets at most one of Complete, Failed and Cancelled. */
  lemma {:induction false} AtMostOneTerminalEvent(actions: seq<Action>, id: nat)
    ensures Inv(IDLE) && Terminals(Run(IDLE, actions).log, id) <= 1
  {
    IdleInv();
    var s := Run(IDLE, actions);
    if id in s.transfers {
      assert TransferOk(s, id);
    } else {
      assert forall k | 0 <= k < |s.log| :: EventOk(s, s.log[k]) && s.log[k].id != id;
      NoEventsNoTerminals(s.log, id);
    }
  }

  lemma AdvanceStep(s: State, a: Action, id: nat)
    requires Inv(s) && id in s.transfers
    ensures id in Apply(s, a).transfers && Advances(s.transfers[id], Apply(s, a).transfers[id])
  {
    assert TransferOk(s, id);
    assert SegmentsOk(s, id);
    if (a.Rename? || a.Clean?) && a.t in s.threads {
      assert ThreadOk(s, a.t);
    }
    if a.Work? && a.id == id && s.transfers[id].Receive? {
      WorkAdvances(s.transfers[id], a.action);
    }
  }

  /** Renaming and deleting are final, and so are complete segments, whatever happens later. */
  lemma {:induction false} RecordsAdvance(s: State, actions: seq<Action>, id: nat)
    requires Inv(s) && id in s.transfers
    ensures id in Run(s, actions).transfers && Advances(s.transfers[id], Run(s, actions).transfers[id])
    decreases |actions|
  {
    if actions != [] {
      ApplyKeepsInv(s, actions[0]);
      AdvanceStep(s, actions[0], id);
      RecordsAdvance(Apply(s, actions[0]), actions[1..], id);
    }
  }

  /**
   * A Complete event means that the destination holds exactly the committed payloads of all segments in order, and
   * that it keeps holding them whatever happens later.
   */
  lemma {:induction false} CompleteMeansDelivered(s: State, k: nat, later: seq<Action>)
    requires Inv(s) && k < |s.log| && s.log[k].Completed?
    ensures var id := s.log[k].id;
            && Covered(s, id)
            && var segments := s.transfers[id].segments;
               && (forall i: nat | i < |segments.states| :: i in segments.committed)
               && segments.file == TransferProtocol.Payload(segments, |segments.states|)
               && id in Run(s, later).transfers
               && Run(s, later).transfers[id] == Receive(segments, Replaced)
  {
    var id := s.log[k].id;
    assert EventOk(s, s.log[k]);
    assert SegmentsOk(s, id);
    TransferProtocol.CompleteIsFinal(s.transfers[id].segments, []);
    RecordsAdvance(s, later, id);
  }

  // ----- What becomes of the temporary file

  /** What happened to the file of one transfer so far: renamed, deleted, a deletion that failed, and a finish-send. */
  datatype Past = Past(renamed: bool, removed: bool, failed: bool, asSend: bool)

  const NOTHING: Past := Past(false, false, false, false)

  ghost function After(p: Past, s: State, a: Action, id: nat): Past
    requires Inv(s)
  {
    match a
    case Rename(t) =>
      if t in s.threads && s.threads[t] == Confirmed(id) && id in s.transfers && HasPartFile(s.transfers[id])
      then p.(renamed := true) else p
    case Clean(t, removed) =>
      if t !in s.threads || !s.threads[t].Cleaning? || s.threads[t].id != id || !Receives(s, id) then p
      else if !removed then p.(failed := true)
      else if HasPartFile(s.transfers[id]) then p.(removed := true)
      else p
    case FinishSend(other) => if other == id && s.active == Some(id) then p.(asSend := true) else p
    case _ => p
  }

  /** What happened to the file of transfer `id` in the course of a run. */
  ghost function History(s: State, p: Past, actions: seq<Action>, id: nat): Past
    requires Inv(s)
    decreases |actions|
  {
    if actions == [] then p
    else
      ApplyKeepsInv(s, actions[0]);
      History(Apply(s, actions[0]), After(p, s, actions[0], id), actions[1..], id)
  }

  /** Some thread has taken this transfer and has not asked for the deletion of its file yet. */
  predicate BeingCleaned(s: State, id: nat) {
    exists t :: t in s.threads && s.threads[t].Cleaning? && s.threads[t].id == id
  }

  /** How the past of a transfer and its present state hang together. */
  ghost predicate Explains(p: Past, s: State, id: nat)
    requires Inv(s)
  {
    if !Receives(s, id) then id !in s.transfers ==> p == NOTHING
    else
      assert TransferOk(s, id);
      var disk, slot := s.transfers[id].disk, s.slots[id];
      && (disk == Replaced <==> p.renamed)
      && (disk == Removed <==> p.removed)
      && (slot == LeftAsSend <==> p.asSend)
      && (slot == Held || slot == LeftAsSend ==> !p.failed && !p.removed)
      && (slot.Taken? && s.threads[slot.taker].Cleaning? ==> !p.failed && !p.removed)
      && (slot.Taken? && s.threads[slot.taker].Announcing? ==> p.failed || disk != PartFile)
      && (slot == Announced || slot == Silenced ==> p.failed || disk != PartFile)
      && !(p.failed && p.removed)
      && (slot.Taken? && s.threads[slot.taker].Finished? ==> !p.failed && !p.removed)
  }

  lemma {:induction false} StepExplains(p: Past, s: State, a: Action, id: nat)
    requires Inv(s) && Inv(Apply(s, a)) && Explains(p, s, id)
    ensures Explains(After(p, s, a, id), Apply(s, a), id)
  {
    if id in s.transfers {
      assert TransferOk(s, id);
    }
    if id in Apply(s, a).transfers {
      assert TransferOk(Apply(s, a), id);
    }
    if ByThread(a) {
      if a.t in s.threads {
        assert ThreadOk(s, a.t);
        ThreadExplains(p, s, a, id);
      }
    }
  }

  predicate ByThread(a: Action) {
    a.Rename? || a.GiveUp? || a.TakeComplete? || a.Clean? || a.Publish?
  }

  lemma {:induction false} ThreadExplains(p: Past, s: State, a: Action, id: nat)
    requires Inv(s) && Inv(Apply(s, a)) && Explains(p, s, id)
    requires ByThread(a) && a.t in s.threads && ThreadOk(s, a.t)
    ensures Explains(After(p, s, a, id), Apply(s, a), id)
  {
    if s.threads[a.t].id != id || !Receives(s, id) {
      OtherThreadExplains(p, s, a, id);
    } else {
      match a
      case Clean(t, removed) => CleanExplains(p, s, t, removed);
      case Publish(t) => PublishExplains(p, s, t);
      case _ => CompletionExplains(p, s, a);
    }
  }

  lemma {:induction false} OtherThreadExplains(p: Past, s: State, a: Action, id: nat)
    requires Inv(s) && Inv(Apply(s, a)) && Explains(p, s, id)
    requires ByThread(a) && a.t in s.threads && ThreadOk(s, a.t)
    requires s.threads[a.t].id != id || !Receives(s, id)
    ensures Explains(After(p, s, a, id), Apply(s, a), id)
  {
    if id in s.transfers {
      assert TransferOk(s, id);
    }
  }

  lemma {:induction false} CleanExplains(p: Past, s: State, t: nat, removed: bool)
    requires Inv(s) && t in s.threads && Inv(Apply(s, Clean(t, removed))) && ThreadOk(s, t)
    requires Receives(s, s.threads[t].id) && Explains(p, s, s.threads[t].id)
    ensures Explains(After(p, s, Clean(t, removed), s.threads[t].id), Apply(s, Clean(t, removed)), s.threads[t].id)
  {
    assert TransferOk(s, s.threads[t].id);
  }

  lemma {:induction false} PublishExplains(p: Past, s: State, t: nat)
    requires Inv(s) && t in s.threads && Inv(Apply(s, Publish(t))) && ThreadOk(s, t)
    requires Receives(s, s.threads[t].id) && Explains(p, s, s.threads[t].id)
    ensures Explains(After(p, s, Publish(t), s.threads[t].id), Apply(s, Publish(t)), s.threads[t].id)
  {
    assert TransferOk(s, s.threads[t].id);
  }

  lemma {:induction false} CompletionExplains(p: Past, s: State, a: Action)
    requires a.Rename? || a.GiveUp? || a.TakeComplete?
    requires Inv(s) && a.t in s.threads && Inv(Apply(s, a)) && ThreadOk(s, a.t)
    requires Receives(s, s.threads[a.t].id) && Explains(p, s, s.threads[a.t].id)
    ensures Explains(After(p, s, a, s.threads[a.t].id), Apply(s, a), s.threads[a.t].id)
  {
    assert TransferOk(s, s.threads[a.t].id);
    assert TransferOk(Apply(s, a), s.threads[a.t].id);
  }

  lemma {:induction false} HistoryExplains(s: State, p: Past, actions: seq<Action>, id: nat)
    requires Inv(s) && Explains(p, s, id)
    ensures Explains(History(s, p, actions, id), Run(s, actions), id)
    decreases |actions|
  {
    if actions != [] {
      ApplyKeepsInv(s, actions[0]);
      StepExplains(p, s, actions[0], id);
      HistoryExplains(Apply(s, actions[0]), After(p, s, actions[0], id), actions[1..], id);
    }
  }

  /**
   * When a receive transfer that has left the registry still has its temporary file: no completion renamed it, and
   * the transfer was finished as if it were a send, or the deletion failed, or it is still to be asked for.
   */
  lemma {:induction false} LeftBehindExactly(actions: seq<Action>, id: nat)
    ensures Inv(IDLE)
    ensures var s, p := Run(IDLE, actions), History(IDLE, NOTHING, actions, id);
            Receives(s, id) && id in s.slots && s.slots[id] != Held ==>
              (s.transfers[id].disk == PartFile <==> !p.renamed && (p.asSend || p.failed || BeingCleaned(s, id)))
  {
    IdleInv();
    HistoryExplains(IDLE, NOTHING, actions, id);
    var s := Run(IDLE, actions);
    if Receives(s, id) {
      assert TransferOk(s, id);
      CleanersHoldTheSlot(s, id);
      if s.slots[id].Taken? {
        assert ThreadOk(s, s.slots[id].taker);
      }
    }
  }

  predicate TakerCleans(s: State, id: nat) {
    id in s.slots && s.slots[id].Taken? && s.slots[id].taker in s.threads && s.threads[s.slots[id].taker].Cleaning?
  }

  lemma {:induction false} CleanersHoldTheSlot(s: State, id: nat)
    requires Inv(s) && id in s.transfers
    ensures BeingCleaned(s, id) <==> TakerCleans(s, id)
  {
    assert TransferOk(s, id);
    if BeingCleaned(s, id) {
      var t :| t in s.threads && s.threads[t].Cleaning? && s.threads[t].id == id;
      assert ThreadOk(s, t);
    }
  }

  lemma {:induction false} TerminalCounts(log: seq<Event>, k: nat)
    requires k < |log| && !log[k].Confirming?
    ensures Terminals(log, log[k].id) >= 1
  {
    if k < |log| - 1 {
      TerminalCounts(log[..|log| - 1], k);
    }
  }

  /**
   * After a Cancelled or Failed event the temporary file is still there exactly if its deletion failed and no
   * completion renamed it.
   */
  lemma {:induction false} EndedKeepsPartFileExactly(actions: seq<Action>, k: nat)
    requires Inv(IDLE) && k < |Run(IDLE, actions).log| && Run(IDLE, actions).log[k].Ended?
    ensures var s := Run(IDLE, actions);
            var id := s.log[k].id;
            var p := History(IDLE, NOTHING, actions, id);
            Receives(s, id) ==> (s.transfers[id].disk == PartFile <==> p.failed && !p.renamed)
  {
    var s := Run(IDLE, actions);
    var id := s.log[k].id;
    assert EventOk(s, s.log[k]);
    HistoryExplains(IDLE, NOTHING, actions, id);
    TerminalCounts(s.log, k);
    assert TransferOk(s, id);
  }

  /** Nobody asks for the deletion of this file any more. */
  ghost predicate DoneCleaning(s: State, id: nat) {
    && Receives(s, id) && id in s.slots && s.slots[id] != Held
    && !BeingCleaned(s, id)
  }

  lemma {:induction false} StaysDone(s: State, a: Action, id: nat)
    requires Inv(s) && Inv(Apply(s, a)) && DoneCleaning(s, id)
    ensures DoneCleaning(Apply(s, a), id)
  {
    var t := Apply(s, a);
    assert TransferOk(s, id);
    assert TransferOk(t, id);
    forall th | th in t.threads && t.threads[th].Cleaning?
      ensures t.threads[th].id != id
    {
      assert th in s.threads && s.threads[th].Cleaning? ==> s.threads[th].id != id;
    }
    if a.Publish? && a.t in s.threads {
      assert ThreadOk(s, a.t);
    }
  }

  /** From then on only a rename changes what becomes of the file. */
  lemma {:induction false} OnlyRenameMatters(s: State, p: Past, actions: seq<Action>, id: nat)
    requires Inv(s) && DoneCleaning(s, id) && (s.transfers[id].disk == Replaced ==> p.renamed)
    ensures var u, q := Run(s, actions), History(s, p, actions, id);
            && Receives(u, id)
            && (s.transfers[id].disk == PartFile && !p.renamed ==>
                  u.transfers[id].disk == if q.renamed then Replaced else PartFile)
            && (s.transfers[id].disk != PartFile ==> u.transfers[id].disk == s.transfers[id].disk)
    decreases |actions|
  {
    if actions != [] {
      ApplyKeepsInv(s, actions[0]);
      StaysDone(s, actions[0], id);
      AdvanceStep(s, actions[0], id);
      RenameStep(s, p, actions[0], id);
      OnlyRenameMatters(Apply(s, actions[0]), After(p, s, actions[0], id), actions[1..], id);
      RenamedStays(Apply(s, actions[0]), After(p, s, actions[0], id), actions[1..], id);
    }
  }

  lemma {:induction false} RenameStep(s: State, p: Past, a: Action, id: nat)
    requires Inv(s) && Inv(Apply(s, a)) && DoneCleaning(s, id)
    ensures Receives(Apply(s, a), id)
    ensures s.transfers[id].disk == PartFile && !p.renamed ==>
              Apply(s, a).transfers[id].disk == if After(p, s, a, id).renamed then Replaced else PartFile
    ensures p.renamed ==> After(p, s, a, id).renamed
  {
    assert TransferOk(s, id);
    if (a.Rename? || a.Clean?) && a.t in s.threads {
      assert ThreadOk(s, a.t);
    }
  }

  lemma {:induction false} RenamedStays(s: State, p: Past, actions: seq<Action>, id: nat)
    requires Inv(s)
    ensures p.renamed ==> History(s, p, actions, id).renamed
    decreases |actions|
  {
    if actions != [] {
      ApplyKeepsInv(s, actions[0]);
      RenamedStays(Apply(s, actions[0]), After(p, s, actions[0], id), actions[1..], id);
    }
  }

  /**
   * What the cleanup of a cancelled or failed transfer decides. The file is deleted for good exactly if it was still
   * the temporary one and the deletion worked; the destination is replaced exactly if a completion renamed the file
   * before, or renames it later because the deletion failed.
   */
  lemma {:induction false} CleanupDecides(s: State, t: nat, removed: bool, later: seq<Action>)
    requires Inv(s) && t in s.threads && s.threads[t].Cleaning? && Receives(s, s.threads[t].id)
    ensures Inv(Apply(s, Clean(t, removed)))
    ensures var id := s.threads[t].id;
            var v := Apply(s, Clean(t, removed));
            var u, renamedLater := Run(v, later), History(v, NOTHING, later, id).renamed;
            var had := s.transfers[id].disk == PartFile;
            && Receives(u, id)
            && (u.transfers[id].disk == Removed <==> had && removed)
            && (u.transfers[id].disk == Replaced
                <==> s.transfers[id].disk == Replaced || (had && !removed && renamedLater))
  {
    var id := s.threads[t].id;
    var v := Apply(s, Clean(t, removed));
    assert ThreadOk(s, t);
    ApplyKeepsInv(s, Clean(t, removed));
    assert TransferOk(s, id);
    CleanersHoldTheSlot(v, id);
    assert DoneCleaning(v, id);
    if v.transfers[id].disk == Replaced {
      RecordsAdvance(v, later, id);
    } else {
      OnlyRenameMatters(v, NOTHING, later, id);
    }
  }

  // ----- End to end

  /** In this run the workers of transfer `id` write their own parts of the source, which has the announced length. */
  ghost predicate AllTruthful(s: State, actions: seq<Action>, id: nat, source: seq<Byte>)
    requires Inv(s)
    decreases |actions|
  {
    if actions == [] then true
    else
      ApplyKeepsInv(s, actions[0]);
      Truthful(s, actions[0], id, source) && AllTruthful(Apply(s, actions[0]), actions[1..], id, source)
  }

  ghost predicate Truthful(s: State, a: Action, id: nat, source: seq<Byte>) {
    match a
    case Install(other, Receiving(shape, _)) => other == id ==> |source| == shape.total
    case Work(other, action) =>
      other == id && Receives(s, id) ==> TransferProtocol.Truthful(s.transfers[id].segments, action, source)
    case _ => true
  }

  ghost predicate Mirrors(s: State, id: nat, source: seq<Byte>) {
    Receives(s, id) ==> TransferProtocol.Mirrors(s.transfers[id].segments, source)
  }

  lemma {:induction false} StepMirrors(s: State, a: Action, id: nat, source: seq<Byte>)
    requires Inv(s) && Mirrors(s, id, source) && Truthful(s, a, id, source)
    ensures Mirrors(Apply(s, a), id, source)
  {
    match a
    case Install(other, Receiving(shape, content)) =>
      if other == id && shape.Valid() && |content| == shape.total {
        TransferProtocol.InitialMirrors(shape, content, source);
      }
    case Work(other, action) =>
      if other == id && Receives(s, id) {
        assert SegmentsOk(s, id);
        TransferProtocol.ApplyKeepsMirrors(s.transfers[id].segments, action, source);
      }
    case Rename(th) => if th in s.threads { assert ThreadOk(s, th); }
    case Clean(th, _) => if th in s.threads { assert ThreadOk(s, th); }
    case _ =>
  }

  lemma {:induction false} RunMirrors(s: State, actions: seq<Action>, id: nat, source: seq<Byte>)
    requires Inv(s) && Mirrors(s, id, source) && AllTruthful(s, actions, id, source)
    ensures Mirrors(Run(s, actions), id, source)
    decreases |actions|
  {
    if actions != [] {
      ApplyKeepsInv(s, actions[0]);
      StepMirrors(s, actions[0], id, source);
      RunMirrors(Apply(s, actions[0]), actions[1..], id, source);
    }
  }

  /**
   * End to end: if the workers of an upload write their own parts of a source, a Complete event means that the
   * destination holds the source, byte for byte, from then on, whatever anybody does later.
   */
  lemma {:induction false} CompleteDeliversSource(actions: seq<Action>, k: nat, source: seq<Byte>, later: seq<Action>)
    requires Inv(IDLE) && k < |Run(IDLE, actions).log| && Run(IDLE, actions).log[k].Completed?
    requires AllTruthful(IDLE, actions, Run(IDLE, actions).log[k].id, source)
    ensures var s := Run(IDLE, actions);
            var id, u := s.log[k].id, Run(s, later);
            Receives(u, id) && u.transfers[id].disk == Replaced && u.transfers[id].segments.file == source
  {
    var s := Run(IDLE, actions);
    var id := s.log[k].id;
    RunMirrors(IDLE, actions, id, source);
    CompleteMeansDelivered(s, k, later);
    assert SegmentsOk(s, id);
    TransferProtocol.MirroredComplete(s.transfers[id].segments, source);
  }

  // ----- What is announced

  lemma {:induction false} RunConcat(s: State, a: seq<Action>, b: seq<Action>)
    requires Inv(s)
    ensures Run(s, a + b) == Run(Run(s, a), b)
    decreases |a|
  {
    if a == [] {
      assert a + b == b;
    } else {
      ApplyKeepsInv(s, a[0]);
      RunConcat(Apply(s, a[0]), a[1..], b);
      assert (a + b)[0] == a[0] && (a + b)[1..] == a[1..] + b;
    }
  }

  lemma {:induction false} RunTwo(s: State, a: Action, b: Action)
    requires Inv(s)
    ensures Inv(Apply(s, a)) && Run(s, [a, b]) == Apply(Apply(s, a), b)
  {
    ApplyKeepsInv(s, a);
    assert [a, b][1..] == [b] && [b][1..] == [];
    assert Run(Apply(s, a), [b]) == Apply(Apply(s, a), b);
  }

  /** A covered transfer that nobody ends is completed: the file is renamed and both events are published. */
  lemma {:induction false} CompletionIsAnnounced(s: State, t: nat, id: nat)
    requires Inv(s) && s.active == Some(id) && Covered(s, id) && HasPartFile(s.transfers[id]) && t !in s.threads
    ensures var u := Run(s, [StartComplete(t, id), Rename(t), TakeComplete(t), Publish(t)]);
            && u.log == s.log + [Confirming(id), Completed(id)]
            && u.active == None && u.threads == s.threads
            && u.transfers == s.transfers[id := s.transfers[id].(disk := Replaced)]
  {
    var first, second := [StartComplete(t, id), Rename(t)], [TakeComplete(t), Publish(t)];
    assert first + second == [StartComplete(t, id), Rename(t), TakeComplete(t), Publish(t)];
    RunConcat(s, first, second);
    RunTwo(s, StartComplete(t, id), Rename(t));
    var u := Run(s, first);
    ConfirmAndRename(s, t, id, u);
    RenamedIsAnnounced(u, t, id);
    assert s.log + [Confirming(id)] + [Completed(id)] == s.log + [Confirming(id), Completed(id)];
    assert u.threads - {t} == s.threads;
  }

  /** A flush or a rename that fails leaves all but the Confirming event as it was: the transfer can still be ended. */
  lemma {:induction false} FailedCompletionChangesNothing(s: State, t: nat, id: nat)
    requires Inv(s) && Covered(s, id) && t !in s.threads
    ensures Run(s, [StartComplete(t, id), GiveUp(t)]) == s.(log := s.log + [Confirming(id)])
    ensures !HasPartFile(s.transfers[id]) ==>
              Run(s, [StartComplete(t, id), Rename(t)]) == s.(log := s.log + [Confirming(id)])
  {
    RunTwo(s, StartComplete(t, id), GiveUp(t));
    RunTwo(s, StartComplete(t, id), Rename(t));
    assert s.threads[t := Confirmed(id)] - {t} == s.threads;
  }

  lemma {:induction false} ConfirmAndRename(s: State, t: nat, id: nat, u: State)
    requires Inv(s) && s.active == Some(id) && Covered(s, id) && HasPartFile(s.transfers[id]) && t !in s.threads
    requires Inv(Apply(s, StartComplete(t, id))) && u == Apply(Apply(s, StartComplete(t, id)), Rename(t))
    ensures u == s.(log := s.log + [Confirming(id)], threads := s.threads[t := Renamed(id)],
                    transfers := s.transfers[id := s.transfers[id].(disk := Replaced)])
  {
    assert s.threads[t := Confirmed(id)][t := Renamed(id)] == s.threads[t := Renamed(id)];
  }

  /** After the rename the slot decides: Complete is published exactly if it is still the transfer's own. */
  lemma {:induction false} RenamedIsAnnounced(s: State, t: nat, id: nat)
    requires Inv(s) && t in s.threads && s.threads[t] == Renamed(id)
    ensures var u := Run(s, [TakeComplete(t), Publish(t)]);
            && u.log == (if s.active == Some(id) then s.log + [Completed(id)] else s.log)
            && u.active == (if s.active == Some(id) then None else s.active)
            && u.threads == s.threads - {t} && u.transfers == s.transfers
  {
    RunTwo(s, TakeComplete(t), Publish(t));
    if s.active == Some(id) {
      assert s.threads[t := Finished(id)] - {t} == s.threads - {t};
    }
  }

  /** One transfer at a time: a new one is installed exactly while nobody holds the slot, with nothing received. */
  lemma {:induction false} InstalledExactlyWhenFree(s: State, id: nat, request: Request)
    requires Inv(s) && id !in s.transfers && WellFormed(request)
    ensures var t := Apply(s, Install(id, request));
            if s.active.Some? then t == s
            else
              && t.active == Some(id) && id in t.transfers && t.threads == s.threads && t.log == s.log
              && (t.transfers[id].Receive? <==> request.Receiving?)
              && (request.Receiving? ==>
                    && HasPartFile(t.transfers[id]) && t.transfers[id].segments.file == request.content
                    && forall i | 0 <= i < |t.transfers[id].segments.states| ::
                         t.transfers[id].segments.states[i] == Segments.Pending)
              && forall k | k in s.transfers :: k in t.transfers && t.transfers[k] == s.transfers[k]
  {
  }

  /** This action takes the slot of transfer `id`. */
  predicate TakesSlot(s: State, a: Action, id: nat) {
    && s.active == Some(id)
    && match a
       case TakeComplete(t) => t in s.threads && s.threads[t] == Renamed(id)
       case TakeEnd(t, other, _) => t !in s.threads && other == id
       case FinishSend(other) => other == id
       case _ => false
  }

  ghost predicate SlotTaken(s: State, actions: seq<Action>, id: nat)
    requires Inv(s)
    decreases |actions|
  {
    if actions == [] then false
    else
      ApplyKeepsInv(s, actions[0]);
      TakesSlot(s, actions[0], id) || SlotTaken(Apply(s, actions[0]), actions[1..], id)
  }

  lemma {:induction false} SlotStep(s: State, a: Action, id: nat)
    requires Inv(s) && id in s.transfers
    ensures Apply(s, a).active == Some(id) <==> s.active == Some(id) && !TakesSlot(s, a, id)
    ensures id in Apply(s, a).transfers
  {
    AdvanceStep(s, a, id);
  }

  lemma {:induction false} SlotIsKept(s: State, actions: seq<Action>, id: nat)
    requires Inv(s) && id in s.transfers
    ensures Run(s, actions).active == Some(id) <==> s.active == Some(id) && !SlotTaken(s, actions, id)
    decreases |actions|
  {
    if actions != [] {
      ApplyKeepsInv(s, actions[0]);
      SlotStep(s, actions[0], id);
      SlotIsKept(Apply(s, actions[0]), actions[1..], id);
    }
  }

  /**
   * A completion that has renamed the file announces Complete exactly if nobody took the slot since, whatever else
   * happened before it went on.
   */
  lemma {:induction false} CompleteUnlessSlotTaken(s: State, t: nat, id: nat, between: seq<Action>)
    requires Inv(s) && s.active == Some(id) && t in s.threads && s.threads[t] == Renamed(id)
    requires TakeComplete(t) !in between
    ensures var u := Run(s, between);
            var v := Run(u, [TakeComplete(t), Publish(t)]);
            v.log == if SlotTaken(s, between, id) then u.log else u.log + [Completed(id)]
  {
    assert ThreadOk(s, t);
    RenamedWaits(s, t, id, between);
    SlotIsKept(s, between, id);
    RenamedIsAnnounced(Run(s, between), t, id);
  }

  lemma {:induction false} RenamedWaits(s: State, t: nat, id: nat, actions: seq<Action>)
    requires Inv(s) && t in s.threads && s.threads[t] == Renamed(id) && TakeComplete(t) !in actions
    ensures t in Run(s, actions).threads && Run(s, actions).threads[t] == Renamed(id)
    decreases |actions|
  {
    if actions != [] {
      ApplyKeepsInv(s, actions[0]);
      assert actions[0] in actions;
      RenamedWaits(Apply(s, actions[0]), t, id, actions[1..]);
    }
  }

  /** Thread `t` has taken a slot and is going to publish `e`. */
  predicate Owes(s: State, t: nat, e: Event) {
    && t in s.threads
    && match e
       case Confirming(_) => false
       case Completed(id) => s.threads[t] == Finished(id)
       case Ended(id, outcome) =>
         s.threads[t] == Cleaning(id, Some(outcome)) || s.threads[t] == Announcing(id, outcome)
  }

  /** Whoever takes the slot owes an event: Complete after a rename, and otherwise the outcome it came with. */
  lemma TakingOwes(s: State, t: nat, id: nat, outcome: Outcome)
    requires Inv(s) && s.active == Some(id)
    ensures t in s.threads && s.threads[t] == Renamed(id) ==> Owes(Apply(s, TakeComplete(t)), t, Completed(id))
    ensures t !in s.threads ==> Owes(Apply(s, TakeEnd(t, id, Some(outcome))), t, Ended(id, outcome))
  {
  }

  lemma {:induction false} OwedStep(s: State, a: Action, t: nat, e: Event)
    requires Inv(s) && (Owes(s, t, e) || e in s.log)
    ensures Owes(Apply(s, a), t, e) || e in Apply(s, a).log
  {
    if a.Publish? && a.t == t && Owes(s, t, e) && Apply(s, a) != s {
      assert Apply(s, a).log[|s.log|] == e;
    }
  }

  /** What is owed stays owed until exactly that event is in the log, and there it stays. */
  lemma {:induction false} OwedUntilAnnounced(s: State, actions: seq<Action>, t: nat, e: Event)
    requires Inv(s) && (Owes(s, t, e) || e in s.log)
    ensures Owes(Run(s, actions), t, e) || e in Run(s, actions).log
    decreases |actions|
  {
    if actions != [] {
      ApplyKeepsInv(s, actions[0]);
      OwedStep(s, actions[0], t, e);
      OwedUntilAnnounced(Apply(s, actions[0]), actions[1..], t, e);
    }
  }

  /**
   * Ending a transfer announces the outcome it was ended with, Cancelled or Failed, and `cancel_all` announces
   * nothing; the slot is free afterwards.
   */
  lemma {:induction false} EndIsAnnounced(s: State, t: nat, id: nat, result: Option<Outcome>, removed: bool)
    requires Inv(s) && s.active == Some(id) && t !in s.threads
    ensures var u := Run(s, [TakeEnd(t, id, result), Clean(t, removed)] + [Publish(t)]);
            && u.log == (if result.Some? then s.log + [Ended(id, result.value)] else s.log)
            && u.active == None && u.threads == s.threads
  {
    var first := [TakeEnd(t, id, result), Clean(t, removed)];
    RunConcat(s, first, [Publish(t)]);
    RunTwo(s, TakeEnd(t, id, result), Clean(t, removed));
    var u := Run(s, first);
    assert [Publish(t)][1..] == [];
    assert Run(u, [Publish(t)]) == Apply(u, Publish(t));
    EndSteps(s, t, id, result, removed, u);
  }

  lemma {:induction false} EndSteps(s: State, t: nat, id: nat, result: Option<Outcome>, removed: bool, u: State)
    requires Inv(s) && s.active == Some(id) && t !in s.threads
    requires Inv(Apply(s, TakeEnd(t, id, result))) && u == Apply(Apply(s, TakeEnd(t, id, result)), Clean(t, removed))
    ensures u.log == s.log && u.active == None
    ensures if result.Some? then u.threads == s.threads[t := Announcing(id, result.value)] else u.threads == s.threads
    ensures result.Some? ==> u.threads - {t} == s.threads
  {
    assert s.threads[t := Cleaning(id, result)] - {t} == s.threads;
    if result.Some? {
      var last := Announcing(id, result.value);
      assert s.threads[t := Cleaning(id, result)][t := last] == s.threads[t := last];
    }
  }

  /** What workers do to the segments of one transfer, as steps of the whole. */
  function Works(id: nat, actions: seq<TransferProtocol.Action>): seq<Action> {
    seq(|actions|, i requires 0 <= i < |actions| => Work(id, actions[i]))
  }

  lemma {:induction false} WorksRun(s: State, id: nat, actions: seq<TransferProtocol.Action>)
    requires Inv(s) && Receives(s, id) && TransferProtocol.Inv(s.transfers[id].segments)
    ensures Run(s, Works(id, actions))
         == s.(transfers := s.transfers[id := s.transfers[id].(
                 segments := TransferProtocol.Run(s.transfers[id].segments, actions))])
    decreases |actions|
  {
    if actions == [] {
      assert s.transfers[id := s.transfers[id]] == s.transfers;
    } else {
      ApplyKeepsInv(s, Work(id, actions[0]));
      WorkAdvances(s.transfers[id], actions[0]);
      var t := Apply(s, Work(id, actions[0]));
      WorksRun(t, id, actions[1..]);
      assert Works(id, actions)[1..] == Works(id, actions[1..]);
      RecordTwice(s.transfers, id, t.transfers[id], Run(s, Works(id, actions)).transfers[id]);
    }
  }

  lemma RecordTwice(transfers: map<nat, Transfer>, id: nat, a: Transfer, b: Transfer)
    ensures transfers[id := a][id := b] == transfers[id := b]
  {
  }

  lemma {:induction false} StrandedStep(s: State, a: Action, id: nat)
    requires Inv(s) && Receives(s, id) && s.transfers[id].segments.stranded != {}
    ensures Receives(Apply(s, a), id) && Apply(s, a).transfers[id].segments.stranded != {}
  {
    if (a.Rename? || a.Clean?) && a.t in s.threads {
      assert ThreadOk(s, a.t);
    }
    if a.Work? && a.id == id {
      assert SegmentsOk(s, id);
      TransferProtocol.StrandedStays(s.transfers[id].segments, a.action);
    }
  }

  /** A transfer with a stranded segment never gets a Complete event. */
  lemma {:induction false} StrandedIsNeverDelivered(s: State, actions: seq<Action>, id: nat)
    requires Inv(s) && Receives(s, id) && s.transfers[id].segments.stranded != {}
    ensures Completed(id) !in Run(s, actions).log
    decreases |actions|
  {
    if actions == [] {
      assert SegmentsOk(s, id);
      TransferProtocol.StrandedBlocksCompletion(s.transfers[id].segments);
      forall k | 0 <= k < |s.log|
        ensures s.log[k] != Completed(id)
      {
        assert EventOk(s, s.log[k]);
      }
    } else {
      ApplyKeepsInv(s, actions[0]);
      StrandedStep(s, actions[0], id);
      StrandedIsNeverDelivered(Apply(s, actions[0]), actions[1..], id);
    }
  }

  /**
   * From any reachable state the transfer that holds the slot can be brought to its Complete event if no segment is
   * stranded, and with the source in the destination if what was stored so far is the source's.
   */
  lemma {:induction false} DeliverableUnlessStranded(s: State, t: nat, id: nat, source: seq<Byte>)
    returns (actions: seq<Action>)
    requires Inv(s) && s.active == Some(id) && Receives(s, id) && HasPartFile(s.transfers[id]) && t !in s.threads
    requires |source| == s.transfers[id].segments.shape.total && s.transfers[id].segments.stranded == {}
    ensures var u := Run(s, actions);
            && u.log == s.log + [Confirming(id), Completed(id)] && u.active == None
            && Receives(u, id) && u.transfers[id].disk == Replaced
            && (Mirrors(s, id, source) ==> u.transfers[id].segments.file == source)
  {
    assert SegmentsOk(s, id);
    var work := TransferProtocol.CompletableUnlessStranded(s.transfers[id].segments, source);
    WorksRun(s, id, work);
    var v := Run(s, Works(id, work));
    CompletionIsAnnounced(v, t, id);
    actions := Works(id, work) + [StartComplete(t, id), Rename(t), TakeComplete(t), Publish(t)];
    RunConcat(s, Works(id, work), [StartComplete(t, id), Rename(t), TakeComplete(t), Publish(t)]);
  }

  // ----- Promises that do not hold, with runs that break them

  lemma {:induction false} RunOneMore(actions: seq<Action>, s: State, a: Action) returns (longer: seq<Action>, t: State)
    requires Inv(IDLE) && s == Run(IDLE, actions)
    ensures t == Apply(s, a) == Run(IDLE, longer) && Inv(t)
  {
    longer := actions + [a];
    RunConcat(IDLE, actions, [a]);
    ApplyKeepsInv(s, a);
    t := Apply(s, a);
    assert [a][1..] == [];
  }

  /** The segments of a one-byte upload after each step of its only worker. */
  lemma OneByte() returns (r: seq<TransferProtocol.State>)
    ensures |r| == 4 && r[0] == TransferProtocol.Initial(Segments.Shape(1, 1), [0])
    ensures forall k | 0 <= k < 4 :: TransferProtocol.Inv(r[k])
    ensures r[1] == TransferProtocol.Apply(r[0], TransferProtocol.Reserve(0, 0, 1, true))
    ensures r[2] == TransferProtocol.Apply(r[1], TransferProtocol.Write(0, [7]))
    ensures r[3] == TransferProtocol.Apply(r[2], TransferProtocol.Commit(0)) && TransferProtocol.IsComplete(r[3])
  {
    var shape := Segments.Shape(1, 1);
    TransferProtocol.InitialInv(shape, [0]);
    var s0 := TransferProtocol.Initial(shape, [0]);
    Segments.CoversExactly(shape, 0, 0, 1);
    TransferProtocol.ApplyKeepsInv(s0, TransferProtocol.Reserve(0, 0, 1, true));
    var s1 := TransferProtocol.Apply(s0, TransferProtocol.Reserve(0, 0, 1, true));
    TransferProtocol.ApplyKeepsInv(s1, TransferProtocol.Write(0, [7]));
    var s2 := TransferProtocol.Apply(s1, TransferProtocol.Write(0, [7]));
    assert s2.leases[0].written == [7];
    TransferProtocol.CommitSucceeds(s2, 0);
    TransferProtocol.ApplyKeepsInv(s2, TransferProtocol.Commit(0));
    r := [s0, s1, s2, TransferProtocol.Apply(s2, TransferProtocol.Commit(0))];
  }

  /** Nothing but the one upload has happened so far. */
  ghost predicate OnlyUpload(actions: seq<Action>, s: State, segments: TransferProtocol.State) {
    && Inv(IDLE) && s == Run(IDLE, actions) && Inv(s)
    && s.active == Some(0) && s.threads == map[] && s.log == []
    && s.transfers == map[0 := Receive(segments, PartFile)]
  }

  lemma {:induction false} Install1(segments: TransferProtocol.State) returns (longer: seq<Action>, t: State)
    requires segments == TransferProtocol.Initial(Segments.Shape(1, 1), [0])
    ensures OnlyUpload(longer, t, segments)
  {
    IdleInv();
    longer, t := RunOneMore([], IDLE, Install(0, Receiving(Segments.Shape(1, 1), [0])));
  }

  lemma {:induction false} Work1(actions: seq<Action>, s: State, segments: TransferProtocol.State,
                                 action: TransferProtocol.Action) returns (longer: seq<Action>, t: State)
    requires OnlyUpload(actions, s, segments) && TransferProtocol.Inv(segments)
    ensures OnlyUpload(longer, t, TransferProtocol.Apply(segments, action))
  {
    longer, t := RunOneMore(actions, s, Work(0, action));
  }

  /** A one-byte upload is installed, received and confirmed by thread 1, which has not renamed the file yet. */
  lemma {:induction false} ConfirmedReached() returns (actions: seq<Action>, s: State)
    ensures Inv(IDLE) && s == Run(IDLE, actions) && Inv(s)
    ensures s.active == Some(0) && s.threads == map[1 := Confirmed(0)]
    ensures Receives(s, 0) && HasPartFile(s.transfers[0])
  {
    var r := OneByte();
    var a1, s1 := Install1(r[0]);
    var a2, s2 := Work1(a1, s1, r[0], TransferProtocol.Reserve(0, 0, 1, true));
    var a3, s3 := Work1(a2, s2, r[1], TransferProtocol.Write(0, [7]));
    var a4, s4 := Work1(a3, s3, r[2], TransferProtocol.Commit(0));
    actions, s := Confirm1(a4, s4, r[3]);
  }

  lemma {:induction false} Confirm1(actions: seq<Action>, s: State, segments: TransferProtocol.State)
    returns (longer: seq<Action>, t: State)
    requires OnlyUpload(actions, s, segments) && TransferProtocol.IsComplete(segments)
    ensures t == Run(IDLE, longer) && Inv(t)
    ensures t.active == Some(0) && t.threads == map[1 := Confirmed(0)]
    ensures Receives(t, 0) && HasPartFile(t.transfers[0])
  {
    longer, t := RunOneMore(actions, s, StartComplete(1, 0));
  }

  /** A completion that is not disturbed is announced: a run in which the upload is delivered. */
  lemma {:induction false} CompletedReached() returns (actions: seq<Action>, s: State)
    ensures Inv(IDLE) && s == Run(IDLE, actions)
    ensures Completed(0) in s.log && s.active == None
    ensures Receives(s, 0) && s.transfers[0].disk == Replaced
  {
    var first, s0 := ConfirmedReached();
    var a1, s1 := RunOneMore(first, s0, Rename(1));
    var a2, s2 := RunOneMore(a1, s1, TakeComplete(1));
    actions, s := RunOneMore(a2, s2, Publish(1));
    assert s.log[|s.log| - 1] == Completed(0);
  }

  /** Thread 2 cancels the transfer; the event does not depend on what the file system makes of the deletion. */
  lemma {:induction false} Cancel(actions: seq<Action>, s: State, removed: bool) returns (longer: seq<Action>, t: State)
    requires Inv(IDLE) && s == Run(IDLE, actions) && Inv(s)
    requires s.active == Some(0) && Receives(s, 0) && 2 !in s.threads
    ensures t == Run(IDLE, longer) && Inv(t) && t.threads == s.threads
    ensures t.log == s.log + [Ended(0, Cancelled)]
    ensures Receives(t, 0)
    ensures t.transfers[0].disk == if removed && HasPartFile(s.transfers[0]) then Removed else s.transfers[0].disk
  {
    var a1, s1 := RunOneMore(actions, s, TakeEnd(2, 0, Some(Cancelled)));
    var a2, s2 := RunOneMore(a1, s1, Clean(2, removed));
    longer, t := RunOneMore(a2, s2, Publish(2));
    CancelSteps(s, s1, s2, t, removed);
  }

  lemma {:induction false} CancelSteps(s: State, s1: State, s2: State, t: State, removed: bool)
    requires Inv(s) && Inv(s1) && Inv(s2)
    requires s.active == Some(0) && Receives(s, 0) && 2 !in s.threads
    requires s1 == Apply(s, TakeEnd(2, 0, Some(Cancelled)))
    requires s2 == Apply(s1, Clean(2, removed)) && t == Apply(s2, Publish(2))
    ensures t.threads == s.threads && t.log == s.log + [Ended(0, Cancelled)] && Receives(t, 0)
    ensures t.transfers[0].disk == if removed && HasPartFile(s.transfers[0]) then Removed else s.transfers[0].disk
  {
    assert s2.threads[2] == Announcing(0, Cancelled);
    assert s2.threads - {2} == s.threads;
  }

  /** A Cancelled event does not mean that the destination is untouched: the rename may have come first. */
  lemma {:induction false} CancelledAfterRename() returns (actions: seq<Action>, s: State)
    ensures Inv(IDLE) && s == Run(IDLE, actions)
    ensures Ended(0, Cancelled) in s.log && Receives(s, 0) && s.transfers[0].disk == Replaced
  {
    var first, s0 := ConfirmedReached();
    var a1, s1 := RunOneMore(first, s0, Rename(1));
    actions, s := Cancel(a1, s1, true);
    assert s.log[|s.log| - 1] == Ended(0, Cancelled);
  }

  /**
   * Nor does it mean that the temporary file is gone: if the deletion fails, the event is published all the same,
   * and a completion that was confirmed before can still rename the file and replace the destination.
   */
  lemma {:induction false} CancelledWithFailedRemoval() returns (actions: seq<Action>, s: State)
    ensures Inv(IDLE) && s == Run(IDLE, actions) && Inv(s)
    ensures Ended(0, Cancelled) in s.log && Receives(s, 0) && s.transfers[0].disk == PartFile
    ensures Receives(Apply(s, Rename(1)), 0) && Apply(s, Rename(1)).transfers[0].disk == Replaced
  {
    var first, s0 := ConfirmedReached();
    actions, s := Cancel(first, s0, false);
    assert s.log[|s.log| - 1] == Ended(0, Cancelled);
  }

  /** Finishing a receive transfer as if it were a send takes the slot but leaves the temporary file behind. */
  lemma {:induction false} FinishSendLeavesPartFile() returns (actions: seq<Action>, s: State)
    ensures Inv(IDLE) && s == Run(IDLE, actions)
    ensures s.active == None && Receives(s, 0) && s.transfers[0].disk == PartFile && s.slots == map[0 := LeftAsSend]
  {
    IdleInv();
    var a1, s1 := RunOneMore([], IDLE, Install(0, Receiving(Segments.Shape(1, 1), [0])));
    actions, s := RunOneMore(a1, s1, FinishSend(0));
  }
}
