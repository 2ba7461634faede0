/**
 The outbox over whole runs: entries are queued, deliveries overlap, the app stops at any point
 between two writes, and planes or servers are cleared at any time.

 A delivery holds the record it was started with. It writes `Sending`, waits for its answer, and
 writes the outcome. Stopping the app forgets the deliveries and leaves storage as it is.
 */
module OutboxRuns {
  import opened Wrappers
  import opened OutboxRecords

  datatype Phase = Listed | Submitted

  datatype Delivery<R> = Delivery(record: Record<R>, phase: Phase)

  datatype Outbox<R> = Outbox(stored: seq<Record<R>>, busy: seq<Delivery<R>>)

  datatype Event<R> =
    | Enqueue(input: Input, nowMs: int)
    | Pick(id: string)
    | Mark(delivery: nat)
    | End(delivery: nat, reply: Reply<R>)
    | ClearPlane(plane: nat)
    | ClearNode(url: string)
    | Crash

  predicate Clears<R>(e: Event<R>, r: Record<R>)
  {
    match e
    case ClearPlane(plane) => r.plane == plane
    case ClearNode(url) => r.baseUrl == Trim(url)
    case _ => false
  }

  function Cleared<R>(stored: seq<Record<R>>, e: Event<R>): seq<Record<R>>
  {
    Keep(ReadAll(stored), (r: Record<R>) => !Clears(e, r))
  }

  predicate InPhase<R>(o: Outbox<R>, k: nat, phase: Phase)
  {
    k < |o.busy| && o.busy[k].phase == phase
  }

  /** One event; an event that cannot happen now changes nothing. */
  function React<R>(o: Outbox<R>, e: Event<R>): Outbox<R>
  {
    match e
    case Enqueue(input, nowMs) => o.(stored := Enqueued(o.stored, input, nowMs))
    case Pick(id) =>
      var r := Lookup(o.stored, id);
      if r.Some? && !r.value.state.Receipted? then o.(busy := o.busy + [Delivery(r.value, Listed)]) else o
    case Mark(k) =>
      if InPhase(o, k, Listed) then
        Outbox(Marked(o.stored, o.busy[k].record), o.busy[k := o.busy[k].(phase := Submitted)])
      else o
    case End(k, reply) =>
      if InPhase(o, k, Submitted) then
        Outbox(Answered(o.stored, o.busy[k].record, reply), o.busy[..k] + o.busy[k + 1..])
      else o
    case ClearPlane(_) => o.(stored := Cleared(o.stored, e))
    case ClearNode(_) => o.(stored := Cleared(o.stored, e))
    case Crash => o.(busy := [])
  }

  function Run<R>(o: Outbox<R>, events: seq<Event<R>>): Outbox<R>
    decreases |events|
  {
    if events == [] then o else Run(React(o, events[0]), events[1..])
  }

  function NewOutbox<R>(): Outbox<R>
  {
    Outbox([], [])
  }

  predicate IsBusy<R>(o: Outbox<R>, id: string)
  {
    exists k :: 0 <= k < |o.busy| && o.busy[k].record.contentId == id
  }

  // ---------------------------------------------------------------- what a step does

  /** A delivery of this record is under way. */
  ghost predicate BusyWith<R>(o: Outbox<R>, r: Record<R>)
  {
    exists k :: 0 <= k < |o.busy| && o.busy[k].record == r
  }

  /** The event starts a delivery of this record, as it is read. */
  ghost predicate Picks<R>(o: Outbox<R>, e: Event<R>, r: Record<R>)
  {
    e.Pick? && Lookup(o.stored, e.id) == Some(r) && !r.state.Receipted?
  }

  lemma BusyAfter<R>(o: Outbox<R>, e: Event<R>, r: Record<R>)
    requires BusyWith(React(o, e), r)
    ensures BusyWith(o, r) || Picks(o, e, r)
  {
    var after := React(o, e);
    var k :| 0 <= k < |after.busy| && after.busy[k].record == r;
    if e.End? && after.busy != o.busy {
      assert after.busy[k] == o.busy[if k < e.delivery then k else k + 1];
    } else if k < |o.busy| {
      assert o.busy[k].record == r;
    }
  }

  /** No delivery starts of an entry that is not there or has its receipt. */
  lemma NotPicked<R>(o: Outbox<R>, e: Event<R>, id: string)
    requires !IsBusy(o, id)
    requires Lookup(o.stored, id).Some? ==> Lookup(o.stored, id).value.state.Receipted?
    ensures !IsBusy(React(o, e), id)
  {
    var after := React(o, e);
    forall k | 0 <= k < |after.busy| ensures after.busy[k].record.contentId != id {
      BusyAfter(o, e, after.busy[k].record);
    }
  }

  lemma ClearedLooksUp<R>(stored: seq<Record<R>>, e: Event<R>, id: string)
    requires UniqueIds(stored)
    ensures UniqueIds(Cleared(stored, e))
    ensures Lookup(Cleared(stored, e), id) ==
      (if Lookup(stored, id).Some? && !Clears(e, Lookup(stored, id).value) then Lookup(stored, id) else None)
  {
    KeepLooksUp(stored, (r: Record<R>) => !Clears(e, r), id);
  }

  /** A permanent rejection of this entry, or a clearing that covers it. */
  predicate Drops<R>(o: Outbox<R>, e: Event<R>, r: Record<R>)
  {
    || (e.End? && e.reply.Refused? && InPhase(o, e.delivery, Submitted)
        && o.busy[e.delivery].record.contentId == r.contentId)
    || Clears(e, r)
  }

  /** The event writes on behalf of a delivery of this identifier. */
  predicate WritesFor<R>(o: Outbox<R>, e: Event<R>, id: string)
  {
    || (e.Mark? && InPhase(o, e.delivery, Listed) && o.busy[e.delivery].record.contentId == id)
    || (e.End? && InPhase(o, e.delivery, Submitted) && o.busy[e.delivery].record.contentId == id)
  }

  lemma ReactLooksUp<R>(o: Outbox<R>, e: Event<R>, id: string)
    requires UniqueIds(o.stored)
    ensures Lookup(React(o, e).stored, id) ==
      match e
      case Enqueue(input, nowMs) =>
        if id == input.contentId && Lookup(o.stored, id).None? then Some(NewRecord(input, nowMs))
        else Lookup(o.stored, id)
      case Mark(k) =>
        if WritesFor(o, e, id) then Some(o.busy[k].record.(state := Pending)) else Lookup(o.stored, id)
      case End(k, reply) => if WritesFor(o, e, id) then Ended(o.busy[k].record, reply) else Lookup(o.stored, id)
      case Pick(_) => Lookup(o.stored, id)
      case Crash => Lookup(o.stored, id)
      case _ =>
        if Lookup(o.stored, id).Some? && !Clears(e, Lookup(o.stored, id).value) then Lookup(o.stored, id) else None
  {
    match e
    case Enqueue(input, nowMs) => EnqueuedLooksUp(o.stored, input, nowMs, id);
    case Mark(k) =>
      if InPhase(o, k, Listed) {
        MarkedLooksUp(o.stored, o.busy[k].record, id);
      }
    case End(k, reply) =>
      if InPhase(o, k, Submitted) {
        AnsweredLooksUp(o.stored, o.busy[k].record, reply, id);
      }
    case ClearPlane(_) => ClearedLooksUp(o.stored, e, id);
    case ClearNode(_) => ClearedLooksUp(o.stored, e, id);
    case _ =>
  }

  lemma ReactUnique<R>(o: Outbox<R>, e: Event<R>)
    requires UniqueIds(o.stored)
    ensures UniqueIds(React(o, e).stored)
  {
    match e
    case Enqueue(input, nowMs) => EnqueuedLooksUp(o.stored, input, nowMs, "");
    case Mark(k) =>
      if InPhase(o, k, Listed) {
        MarkedLooksUp(o.stored, o.busy[k].record, "");
      }
    case End(k, reply) =>
      if InPhase(o, k, Submitted) {
        AnsweredLooksUp(o.stored, o.busy[k].record, reply, "");
      }
    case ClearPlane(_) => ClearedLooksUp(o.stored, e, "");
    case ClearNode(_) => ClearedLooksUp(o.stored, e, "");
    case _ =>
  }

  // ---------------------------------------------------------------- every run

  lemma {:induction false} RunUnique<R>(o: Outbox<R>, events: seq<Event<R>>)
    requires UniqueIds(o.stored)
    ensures UniqueIds(Run(o, events).stored)
    decreases |events|
  {
    if events != [] {
      ReactUnique(o, events[0]);
      RunUnique(React(o, events[0]), events[1..]);
    }
  }

  predicate Proper<R>(r: Record<R>)
  {
    r.receipt.Some? <==> r.state.Receipted?
  }

  /** What is read is proper, and deliveries are of pending records. */
  ghost predicate AllProper<R>(o: Outbox<R>)
  {
    && UniqueIds(o.stored)
    && (forall id :: Lookup(o.stored, id).Some? ==> Proper(Lookup(o.stored, id).value))
    && (forall k :: 0 <= k < |o.busy| ==> o.busy[k].record.state.Pending? && Proper(o.busy[k].record))
  }

  lemma ReactKeepsProper<R>(o: Outbox<R>, e: Event<R>)
    requires AllProper(o)
    ensures AllProper(React(o, e))
  {
    var after := React(o, e);
    ReactUnique(o, e);
    forall id | Lookup(after.stored, id).Some? ensures Proper(Lookup(after.stored, id).value) {
      ReactLooksUp(o, e, id);
    }
    forall k | 0 <= k < |after.busy| ensures after.busy[k].record.state.Pending? && Proper(after.busy[k].record) {
      BusyAfter(o, e, after.busy[k].record);
    }
  }

  lemma {:induction false} RunKeepsProper<R>(o: Outbox<R>, events: seq<Event<R>>)
    requires AllProper(o)
    ensures AllProper(Run(o, events))
    decreases |events|
  {
    if events != [] {
      ReactKeepsProper(o, events[0]);
      RunKeepsProper(React(o, events[0]), events[1..]);
    }
  }

  /**
   Every run from an empty outbox, with crashes at any write and deliveries overlapping as they may:
   identifiers are unique, and exactly the receipted entries hold a receipt.
   */
  lemma EveryRunIsProper<R>(events: seq<Event<R>>, id: string)
    ensures var o := Run(NewOutbox<R>(), events);
      && UniqueIds(o.stored)
      && (Lookup(o.stored, id).Some? ==> Proper(Lookup(o.stored, id).value))
  {
    RunKeepsProper(NewOutbox<R>(), events);
  }

  // ---------------------------------------------------------------- what becomes of an entry

  /**
   One step, whatever deliveries are under way: an entry leaves exactly by a permanent rejection or a
   clearing that covers it; it changes only by the write of a delivery of its identifier, and then has
   that delivery's fields; and nothing appears but what is queued or what a delivery writes back. A
   delivery that ends leaves its receipt, nothing, or one more attempt and a wait.
   */
  lemma EntryAfterStep<R>(o: Outbox<R>, e: Event<R>, id: string)
    requires UniqueIds(o.stored)
    ensures var before, after := Lookup(o.stored, id), Lookup(React(o, e).stored, id);
      && (before.Some? ==> (after.None? <==> Drops(o, e, before.value)))
      && (before.Some? && after.Some? ==>
        after == before || (WritesFor(o, e, id) && SameFields(o.busy[e.delivery].record, after.value)))
      && (before.None? && after.Some? ==> WritesFor(o, e, id) || (e.Enqueue? && e.input.contentId == id))
      && (e.End? && WritesFor(o, e, id) ==> LeftBy(after, o.busy[e.delivery].record, e.reply))
  {
    ReactLooksUp(o, e, id);
    if e.End? && WritesFor(o, e, id) {
      EndedSays(o.busy[e.delivery].record, e.reply);
    }
  }

  /** No event of the run drops the entry, as it is then. */
  predicate NeverDropped<R>(o: Outbox<R>, events: seq<Event<R>>, id: string)
    decreases |events|
  {
    events != [] ==>
      && (Lookup(o.stored, id).Some? ==> !Drops(o, events[0], Lookup(o.stored, id).value))
      && NeverDropped(React(o, events[0]), events[1..], id)
  }

  /** Every delivery of the identifier under way carries these fields. */
  predicate AllCarry<R>(o: Outbox<R>, id: string, f: Record<R>)
  {
    forall k :: 0 <= k < |o.busy| && o.busy[k].record.contentId == id ==> SameFields(f, o.busy[k].record)
  }

  lemma StepKeepsFields<R>(o: Outbox<R>, e: Event<R>, id: string, f: Record<R>)
    requires UniqueIds(o.stored) && Lookup(o.stored, id).Some? && !Drops(o, e, Lookup(o.stored, id).value)
    requires SameFields(f, Lookup(o.stored, id).value) && AllCarry(o, id, f)
    ensures var after := Lookup(React(o, e).stored, id);
      after.Some? && SameFields(f, after.value) && AllCarry(React(o, e), id, f)
  {
    EntryAfterStep(o, e, id);
    var after := React(o, e);
    forall k | 0 <= k < |after.busy| && after.busy[k].record.contentId == id
      ensures SameFields(f, after.busy[k].record)
    {
      BusyAfter(o, e, after.busy[k].record);
    }
  }

  lemma {:induction false} RunKeepsFields<R>(o: Outbox<R>, events: seq<Event<R>>, id: string, f: Record<R>)
    requires UniqueIds(o.stored) && Lookup(o.stored, id).Some? && NeverDropped(o, events, id)
    requires SameFields(f, Lookup(o.stored, id).value) && AllCarry(o, id, f)
    ensures var after := Lookup(Run(o, events).stored, id); after.Some? && SameFields(f, after.value)
    decreases |events|
  {
    if events != [] {
      StepKeepsFields(o, events[0], id, f);
      ReactUnique(o, events[0]);
      RunKeepsFields(React(o, events[0]), events[1..], id, f);
    }
  }

  /** Over every run, overlapping deliveries or not, an entry that no event drops is there at the end. */
  lemma {:induction false} StaysUnlessDropped<R>(o: Outbox<R>, events: seq<Event<R>>, id: string)
    requires UniqueIds(o.stored) && Lookup(o.stored, id).Some? && NeverDropped(o, events, id)
    ensures UniqueIds(Run(o, events).stored) && Lookup(Run(o, events).stored, id).Some?
    decreases |events|
  {
    if events != [] {
      EntryAfterStep(o, events[0], id);
      ReactUnique(o, events[0]);
      StaysUnlessDropped(React(o, events[0]), events[1..], id);
    }
  }

  /** The entry keeps its fields whatever happens next, unless it is dropped. */
  ghost predicate FieldsStay<R(!new)>(o: Outbox<R>, id: string)
    requires Lookup(o.stored, id).Some?
  {
    forall events :: NeverDropped(o, events, id) ==> FieldsKept(o, events, id)
  }

  ghost predicate FieldsKept<R>(o: Outbox<R>, events: seq<Event<R>>, id: string)
    requires Lookup(o.stored, id).Some?
  {
    var after := Lookup(Run(o, events).stored, id);
    after.Some? && SameFields(Lookup(o.stored, id).value, after.value)
  }

  /** A delivery's next write, if its submission fails. */
  function NextWrite<R>(o: Outbox<R>, k: nat): (e: Event<R>)
    requires k < |o.busy|
    ensures !e.ClearPlane? && !e.ClearNode?
  {
    if o.busy[k].phase.Listed? then Mark(k) else End(k, Failed(0))
  }

  lemma RunOne<R>(o: Outbox<R>, e: Event<R>)
    ensures Run(o, [e]) == React(o, e)
  {
    assert [e][1..] == [];
  }

  /** A delivery with other fields writes them over the entry. */
  lemma DeliveryOverwrites<R(!new)>(o: Outbox<R>, k: nat, id: string)
    requires UniqueIds(o.stored) && k < |o.busy| && o.busy[k].record.contentId == id
    requires Lookup(o.stored, id).Some? && !SameFields(Lookup(o.stored, id).value, o.busy[k].record)
    ensures !FieldsStay(o, id)
  {
    var e := NextWrite(o, k);
    ReactLooksUp(o, e, id);
    RunOne(o, e);
    assert [e][1..] == [];
    assert NeverDropped(o, [e], id);
    assert !FieldsKept(o, [e], id);
  }

  /**
   An entry keeps its bytes, target, plane, priority and queue time over every run that does not drop
   it exactly when every delivery of its identifier that is under way carries them too.
   */
  lemma FieldsStayExactly<R(!new)>(o: Outbox<R>, id: string)
    requires UniqueIds(o.stored) && Lookup(o.stored, id).Some?
    ensures FieldsStay(o, id) <==> AllCarry(o, id, Lookup(o.stored, id).value)
  {
    var r := Lookup(o.stored, id).value;
    if AllCarry(o, id, r) {
      forall events | NeverDropped(o, events, id) ensures FieldsKept(o, events, id) {
        RunKeepsFields(o, events, id, r);
      }
    } else {
      var k :| 0 <= k < |o.busy| && o.busy[k].record.contentId == id && !SameFields(r, o.busy[k].record);
      DeliveryOverwrites(o, k, id);
    }
  }

  /**
   An entry that is cleared while it is delivered and queued again for another server is sent to the old
   one after all: the delivery's failure writes the old target over the new.
   */
  lemma OldTargetReturns<R>(input: Input, url: string, nowMs: int, againMs: int, failedMs: int)
    requires Trim(url) != Trim(input.baseUrl)
    ensures var id := input.contentId;
      var sending := React(React(React(NewOutbox<R>(), Enqueue(input, nowMs)), Pick(id)), Mark(0));
      var queued := React(React(sending, ClearNode(input.baseUrl)), Enqueue(input.(baseUrl := url), againMs));
      var after := React(queued, End(0, Failed(failedMs)));
      && Lookup(queued.stored, id).Some? && Lookup(queued.stored, id).value.baseUrl == Trim(url)
      && Lookup(after.stored, id).Some? && Lookup(after.stored, id).value.baseUrl == Trim(input.baseUrl)
  {
    var id, r := input.contentId, NewRecord<R>(input, nowMs);
    var one := React(NewOutbox<R>(), Enqueue(input, nowMs));
    ReactLooksUp(NewOutbox<R>(), Enqueue(input, nowMs), id);
    ReactUnique(NewOutbox<R>(), Enqueue(input, nowMs));
    var two := React(one, Pick(id));
    assert two.busy == [Delivery(r, Listed)];
    ReactLooksUp(two, Mark(0), id);
    ReactUnique(two, Mark(0));
    var three := React(two, Mark(0));
    assert three.busy == [Delivery(r, Submitted)];
    OldTargetWritten(three, r, input.(baseUrl := url), input.baseUrl, againMs, failedMs);
  }

  lemma OldTargetWritten<R>(o: Outbox<R>, r: Record<R>, input: Input, url: string, againMs: int, failedMs: int)
    requires UniqueIds(o.stored) && o.busy == [Delivery(r, Submitted)] && r.contentId == input.contentId
    requires Lookup(o.stored, r.contentId).Some? && Lookup(o.stored, r.contentId).value.baseUrl == Trim(url)
    ensures var id := r.contentId;
      var queued := React(React(o, ClearNode(url)), Enqueue(input, againMs));
      var after := React(queued, End(0, Failed(failedMs)));
      && Lookup(queued.stored, id).Some? && Lookup(queued.stored, id).value.baseUrl == Trim(input.baseUrl)
      && Lookup(after.stored, id).Some? && Lookup(after.stored, id).value.baseUrl == r.baseUrl
  {
    var id := r.contentId;
    var clearing: Event<R> := ClearNode(url);
    ReactLooksUp(o, clearing, id);
    ReactUnique(o, clearing);
    var cleared := React(o, clearing);
    ReactLooksUp(cleared, Enqueue(input, againMs), id);
    ReactUnique(cleared, Enqueue(input, againMs));
    ReactLooksUp(React(cleared, Enqueue(input, againMs)), End(0, Failed(failedMs)), id);
  }

  /** After a stop at any moment an entry that has no receipt is pending, and is taken up with its exact bytes. */
  lemma CrashReturnsToPending<R>(o: Outbox<R>, id: string)
    requires Lookup(o.stored, id).Some? && !Lookup(o.stored, id).value.state.Receipted?
    ensures var r := Lookup(o.stored, id).value;
      r.state.Pending? && React(React(o, Crash), Pick(id)).busy == [Delivery(r, Listed)]
  {
    FindRead(o.stored, id);
  }

  // ---------------------------------------------------------------- when an entry is gone for good

  /** Nothing with this identifier is queued in the run. */
  ghost predicate NeverQueued<R>(events: seq<Event<R>>, id: string)
  {
    forall e :: e in events && e.Enqueue? ==> e.input.contentId != id
  }

  /** The entry is not in storage whatever happens next, as long as it is not queued again. */
  ghost predicate StaysGone<R(!new)>(o: Outbox<R>, id: string)
  {
    forall events :: NeverQueued(events, id) ==> Lookup(Run(o, events).stored, id).None?
  }

  lemma {:induction false} GoneStaysGone<R>(o: Outbox<R>, events: seq<Event<R>>, id: string)
    requires UniqueIds(o.stored) && NeverQueued(events, id)
    requires Lookup(o.stored, id).None? && !IsBusy(o, id)
    ensures Lookup(Run(o, events).stored, id).None?
    decreases |events|
  {
    if events != [] {
      var e := events[0];
      ReactLooksUp(o, e, id);
      ReactUnique(o, e);
      assert !WritesFor(o, e, id);
      assert e in events;
      NotPicked(o, e, id);
      GoneStaysGone(React(o, e), events[1..], id);
    }
  }

  lemma DeliveryWritesBack<R(!new)>(o: Outbox<R>, k: nat)
    requires UniqueIds(o.stored) && k < |o.busy|
    ensures !StaysGone(o, o.busy[k].record.contentId)
  {
    var id := o.busy[k].record.contentId;
    var e := NextWrite(o, k);
    RunOne(o, e);
    ReactLooksUp(o, e, id);
    assert NeverQueued([e], id);
  }

  /** An entry that is not there stays away exactly when no delivery of it is under way. */
  lemma GoneFinalExactly<R(!new)>(o: Outbox<R>, id: string)
    requires UniqueIds(o.stored) && Lookup(o.stored, id).None?
    ensures StaysGone(o, id) <==> !IsBusy(o, id)
  {
    if IsBusy(o, id) {
      var k :| 0 <= k < |o.busy| && o.busy[k].record.contentId == id;
      DeliveryWritesBack(o, k);
    } else {
      forall events | NeverQueued(events, id) ensures Lookup(Run(o, events).stored, id).None? {
        GoneStaysGone(o, events, id);
      }
    }
  }

  /**
   A clearing is final for an entry it covers exactly when no delivery of the entry is under way: a
   delivery that is writes the entry back.
   */
  lemma ClearingFinalExactly<R(!new)>(o: Outbox<R>, e: Event<R>, id: string)
    requires UniqueIds(o.stored) && (e.ClearPlane? || e.ClearNode?)
    requires Lookup(o.stored, id).Some? && Clears(e, Lookup(o.stored, id).value)
    ensures StaysGone(React(o, e), id) <==> !IsBusy(o, id)
  {
    ReactUnique(o, e);
    ReactLooksUp(o, e, id);
    GoneFinalExactly(React(o, e), id);
    assert IsBusy(React(o, e), id) <==> IsBusy(o, id);
  }

  /** Another delivery of the same identifier is under way. */
  predicate OtherDelivery<R>(o: Outbox<R>, k: nat)
    requires k < |o.busy|
  {
    exists j :: 0 <= j < |o.busy| && j != k && o.busy[j].record.contentId == o.busy[k].record.contentId
  }

  lemma BusyAfterEnd<R>(o: Outbox<R>, k: nat)
    requires k < |o.busy|
    ensures IsBusy(o.(busy := o.busy[..k] + o.busy[k + 1..]), o.busy[k].record.contentId) <==> OtherDelivery(o, k)
  {
    var busy := o.busy[..k] + o.busy[k + 1..];
    if OtherDelivery(o, k) {
      var j :| 0 <= j < |o.busy| && j != k && o.busy[j].record.contentId == o.busy[k].record.contentId;
      assert busy[if j < k then j else j - 1] == o.busy[j];
    }
    forall i | 0 <= i < |busy| ensures busy[i] == o.busy[if i < k then i else i + 1] {
    }
  }

  /** A permanent rejection is final exactly when no other delivery of the entry is under way. */
  lemma RejectionFinalExactly<R(!new)>(o: Outbox<R>, k: nat)
    requires UniqueIds(o.stored) && InPhase(o, k, Submitted)
    ensures StaysGone(React(o, End(k, Refused)), o.busy[k].record.contentId) <==> !OtherDelivery(o, k)
  {
    var e: Event<R>, id := End(k, Refused), o.busy[k].record.contentId;
    ReactUnique(o, e);
    ReactLooksUp(o, e, id);
    GoneFinalExactly(React(o, e), id);
    BusyAfterEnd(o, k);
    assert IsBusy(React(o, e), id) <==> IsBusy(o.(busy := o.busy[..k] + o.busy[k + 1..]), id);
  }

  // ---------------------------------------------------------------- when a receipt is final

  /** No clearing in the run covers the entry. */
  ghost predicate NeverCleared<R>(events: seq<Event<R>>, r: Record<R>)
  {
    forall e :: e in events ==> !Clears(e, r)
  }

  /** The entry stays as it is whatever happens next, unless it is cleared. */
  ghost predicate StaysReceipted<R(!new)>(o: Outbox<R>, id: string)
    requires Lookup(o.stored, id).Some?
  {
    forall events :: NeverCleared(events, Lookup(o.stored, id).value) ==>
      Lookup(Run(o, events).stored, id) == Lookup(o.stored, id)
  }

  ghost predicate NeverSentAgain<R(!new)>(o: Outbox<R>, id: string)
    requires Lookup(o.stored, id).Some?
  {
    forall events :: NeverCleared(events, Lookup(o.stored, id).value) ==> !Sends(o, events, id)
  }

  /** Some event of the run sends the entry to its server. */
  predicate Sends<R>(o: Outbox<R>, events: seq<Event<R>>, id: string)
    decreases |events|
  {
    events != [] && ((events[0].Mark? && WritesFor(o, events[0], id)) || Sends(React(o, events[0]), events[1..], id))
  }

  lemma {:induction false} Stays<R>(o: Outbox<R>, events: seq<Event<R>>, id: string)
    requires UniqueIds(o.stored) && !IsBusy(o, id)
    requires Lookup(o.stored, id).Some? && Lookup(o.stored, id).value.state.Receipted?
    requires NeverCleared(events, Lookup(o.stored, id).value)
    ensures Lookup(Run(o, events).stored, id) == Lookup(o.stored, id) && !Sends(o, events, id)
    decreases |events|
  {
    if events != [] {
      var e := events[0];
      assert e in events;
      assert !WritesFor(o, e, id);
      ReactLooksUp(o, e, id);
      ReactUnique(o, e);
      NotPicked(o, e, id);
      Stays(React(o, e), events[1..], id);
    }
  }

  lemma SendsLater<R>(o: Outbox<R>, e: Event<R>, rest: seq<Event<R>>, id: string)
    requires Sends(React(o, e), rest, id)
    ensures Sends(o, [e] + rest, id)
  {
    assert ([e] + rest)[1..] == rest;
  }

  lemma PendingIsSent<R>(o: Outbox<R>, id: string)
    requires Lookup(o.stored, id).Some? && Lookup(o.stored, id).value.state.Pending?
    ensures Sends(o, [Pick(id)] + [Mark(|o.busy|)], id)
  {
    var two := React(o, Pick(id));
    assert two.busy[|o.busy|] == Delivery(Lookup(o.stored, id).value, Listed);
    assert Sends(two, [Mark(|o.busy|)], id);
    SendsLater(o, Pick(id), [Mark(|o.busy|)], id);
  }

  lemma BackToPending<R>(o: Outbox<R>, k: nat)
    requires UniqueIds(o.stored) && k < |o.busy|
    ensures var r := Lookup(React(o, NextWrite(o, k)).stored, o.busy[k].record.contentId);
      r.Some? && r.value.state.Pending?
  {
    ReactLooksUp(o, NextWrite(o, k), o.busy[k].record.contentId);
  }

  lemma DeliveryUnreceipts<R(!new)>(o: Outbox<R>, k: nat, id: string)
    requires UniqueIds(o.stored) && k < |o.busy| && o.busy[k].record.contentId == id
    requires Lookup(o.stored, id).Some? && Lookup(o.stored, id).value.state.Receipted?
    ensures !StaysReceipted(o, id)
  {
    var e := NextWrite(o, k);
    BackToPending(o, k);
    RunOne(o, e);
    assert NeverCleared([e], Lookup(o.stored, id).value);
    assert Lookup(Run(o, [e]).stored, id) != Lookup(o.stored, id);
  }

  /** The next write and then a second delivery: the entry is sent again. */
  function Resending<R>(o: Outbox<R>, k: nat): (events: seq<Event<R>>)
    requires k < |o.busy|
  {
    var e, id := NextWrite(o, k), o.busy[k].record.contentId;
    [e] + ([Pick(id)] + [Mark(|React(o, e).busy|)])
  }

  lemma ResendingSends<R>(o: Outbox<R>, k: nat)
    requires UniqueIds(o.stored) && k < |o.busy|
    ensures Sends(o, Resending(o, k), o.busy[k].record.contentId)
  {
    var e, id := NextWrite(o, k), o.busy[k].record.contentId;
    BackToPending(o, k);
    PendingIsSent(React(o, e), id);
    SendsLater(o, e, [Pick(id)] + [Mark(|React(o, e).busy|)], id);
  }

  lemma DeliveryResends<R(!new)>(o: Outbox<R>, k: nat, id: string)
    requires UniqueIds(o.stored) && k < |o.busy| && o.busy[k].record.contentId == id
    requires Lookup(o.stored, id).Some? && Lookup(o.stored, id).value.state.Receipted?
    ensures !NeverSentAgain(o, id)
  {
    ResendingSends(o, k);
    assert NeverCleared(Resending(o, k), Lookup(o.stored, id).value);
  }

  /**
   A receipt is final exactly when no delivery of its entry is under way: then the entry stays as it is
   and is never sent again until it is cleared, whatever else happens and however many deliveries
   overlap. A delivery that is under way can take it back to pending, to be sent again.
   */
  lemma ReceiptFinalExactly<R(!new)>(o: Outbox<R>, id: string)
    requires UniqueIds(o.stored)
    requires Lookup(o.stored, id).Some? && Lookup(o.stored, id).value.state.Receipted?
    ensures StaysReceipted(o, id) <==> !IsBusy(o, id)
    ensures NeverSentAgain(o, id) <==> !IsBusy(o, id)
  {
    if IsBusy(o, id) {
      var k :| 0 <= k < |o.busy| && o.busy[k].record.contentId == id;
      DeliveryUnreceipts(o, k, id);
      DeliveryResends(o, k, id);
    } else {
      forall events | NeverCleared(events, Lookup(o.stored, id).value)
        ensures Lookup(Run(o, events).stored, id) == Lookup(o.stored, id) && !Sends(o, events, id)
      {
        Stays(o, events, id);
      }
    }
  }

  // ---------------------------------------------------------------- one delivery at a time

  /** A record is picked only when no delivery of it is under way. */
  predicate OneAtATime<R>(o: Outbox<R>, e: Event<R>)
  {
    e.Pick? ==> !IsBusy(o, e.id)
  }

  predicate AllOneAtATime<R>(o: Outbox<R>, events: seq<Event<R>>)
    decreases |events|
  {
    events != [] ==> OneAtATime(o, events[0]) && AllOneAtATime(React(o, events[0]), events[1..])
  }

  predicate DistinctBusy<R>(busy: seq<Delivery<R>>)
  {
    forall i, j :: 0 <= i < j < |busy| ==> busy[i].record.contentId != busy[j].record.contentId
  }

  /** Deliveries are of different entries, and of none that has its receipt. */
  ghost predicate Inv<R>(o: Outbox<R>)
  {
    && UniqueIds(o.stored)
    && DistinctBusy(o.busy)
    && (forall id :: IsBusy(o, id) && Lookup(o.stored, id).Some? ==> !Lookup(o.stored, id).value.state.Receipted?)
  }

  lemma BusyIdAfter<R>(o: Outbox<R>, e: Event<R>, id: string)
    requires IsBusy(React(o, e), id)
    ensures IsBusy(o, id) || (e.Pick? && e.id == id && Lookup(o.stored, id).Some? &&
      !Lookup(o.stored, id).value.state.Receipted?)
  {
    var after := React(o, e);
    var k :| 0 <= k < |after.busy| && after.busy[k].record.contentId == id;
    BusyAfter(o, e, after.busy[k].record);
  }

  lemma DropBusy<R>(busy: seq<Delivery<R>>, k: nat)
    requires k < |busy| && DistinctBusy(busy)
    ensures var rest := busy[..k] + busy[k + 1..];
      && DistinctBusy(rest)
      && (forall i :: 0 <= i < |rest| ==> rest[i] == busy[if i < k then i else i + 1])
      && (forall i :: 0 <= i < |rest| ==> rest[i].record.contentId != busy[k].record.contentId)
  {}

  lemma ReactKeepsDistinct<R>(o: Outbox<R>, e: Event<R>)
    requires DistinctBusy(o.busy) && OneAtATime(o, e)
    ensures DistinctBusy(React(o, e).busy)
  {
    if e.End? && InPhase(o, e.delivery, Submitted) {
      DropBusy(o.busy, e.delivery);
    }
  }

  lemma ReactKeepsInv<R>(o: Outbox<R>, e: Event<R>)
    requires Inv(o) && OneAtATime(o, e)
    ensures Inv(React(o, e))
  {
    var after := React(o, e);
    ReactUnique(o, e);
    ReactKeepsDistinct(o, e);
    forall id | IsBusy(after, id) && Lookup(after.stored, id).Some?
      ensures !Lookup(after.stored, id).value.state.Receipted?
    {
      ReactLooksUp(o, e, id);
      BusyIdAfter(o, e, id);
      if e.End? && WritesFor(o, e, id) {
        DropBusy(o.busy, e.delivery);
      }
    }
  }

  lemma {:induction false} RunKeepsInv<R>(o: Outbox<R>, events: seq<Event<R>>)
    requires Inv(o) && AllOneAtATime(o, events)
    ensures Inv(Run(o, events))
    decreases |events|
  {
    if events != [] {
      ReactKeepsInv(o, events[0]);
      RunKeepsInv(React(o, events[0]), events[1..]);
    }
  }

  /**
   With one delivery at a time up to the moment a record has its receipt, the receipt is final: from
   then on, whatever happens and however deliveries overlap, the record stays as it is and is never
   sent again until it is cleared.
   */
  lemma NeverSubmittedAgain<R(!new)>(events: seq<Event<R>>, id: string)
    requires AllOneAtATime(NewOutbox<R>(), events)
    requires Lookup(Run(NewOutbox<R>(), events).stored, id).Some?
    requires Lookup(Run(NewOutbox<R>(), events).stored, id).value.state.Receipted?
    ensures var o := Run(NewOutbox<R>(), events); StaysReceipted(o, id) && NeverSentAgain(o, id)
  {
    RunKeepsInv(NewOutbox<R>(), events);
    ReceiptFinalExactly(Run(NewOutbox<R>(), events), id);
  }

  /** Every delivery of the identifier under way is of the pending entry as it is read. */
  ghost predicate Tracks<R>(o: Outbox<R>, id: string)
  {
    forall k :: 0 <= k < |o.busy| && o.busy[k].record.contentId == id ==>
      o.busy[k].record.state.Pending? && Lookup(o.stored, id) == Some(o.busy[k].record)
  }

  lemma StepGrows<R>(o: Outbox<R>, e: Event<R>, id: string)
    requires Inv(o) && OneAtATime(o, e) && Tracks(o, id)
    requires Lookup(o.stored, id).Some? && !Drops(o, e, Lookup(o.stored, id).value)
    ensures var before, after := Lookup(o.stored, id), Lookup(React(o, e).stored, id);
      && after.Some? && SameFields(before.value, after.value) && before.value.attempts <= after.value.attempts
      && Tracks(React(o, e), id)
  {
    ReactLooksUp(o, e, id);
    var after := React(o, e);
    if e.End? && WritesFor(o, e, id) {
      DropBusy(o.busy, e.delivery);
    } else {
      forall k | 0 <= k < |after.busy| && after.busy[k].record.contentId == id
        ensures after.busy[k].record.state.Pending? && Lookup(after.stored, id) == Some(after.busy[k].record)
      {
        BusyAfter(o, e, after.busy[k].record);
        FindRead(o.stored, id);
      }
    }
  }

  /**
   With one delivery at a time, from a moment when those of an entry are of the entry as it is, the
   attempts counted for it never go down while it is not dropped, and its fields stay.
   */
  lemma {:induction false} AttemptsGrow<R>(o: Outbox<R>, events: seq<Event<R>>, id: string)
    requires Inv(o) && AllOneAtATime(o, events) && Tracks(o, id)
    requires Lookup(o.stored, id).Some? && NeverDropped(o, events, id)
    ensures var before, after := Lookup(o.stored, id), Lookup(Run(o, events).stored, id);
      after.Some? && SameFields(before.value, after.value) && before.value.attempts <= after.value.attempts
    decreases |events|
  {
    if events != [] {
      StepGrows(o, events[0], id);
      ReactKeepsInv(o, events[0]);
      AttemptsGrow(React(o, events[0]), events[1..], id);
    }
  }

  // ---------------------------------------------------------------- what overlapping deliveries do

  /** Nothing in the code stops a second delivery: an entry being sent still reads as pending. */
  lemma SecondDelivery<R>(o: Outbox<R>, id: string)
    requires UniqueIds(o.stored) && o.busy == []
    requires Lookup(o.stored, id).Some? && Lookup(o.stored, id).value.state.Pending?
    ensures var r := Lookup(o.stored, id).value;
      var both := React(React(React(React(o, Pick(id)), Mark(0)), Pick(id)), Mark(1));
      both.busy == [Delivery(r, Submitted), Delivery(r, Submitted)] && UniqueIds(both.stored)
  {
    var r := Lookup(o.stored, id).value;
    var sent := React(React(o, Pick(id)), Mark(0));
    assert sent.busy == [Delivery(r, Submitted)];
    MarkedLooksUp(o.stored, r, id);
    SecondPick(sent, r);
  }

  lemma SecondPick<R>(o: Outbox<R>, r: Record<R>)
    requires UniqueIds(o.stored) && o.busy == [Delivery(r, Submitted)]
    requires r.state.Pending? && Lookup(o.stored, r.contentId) == Some(r)
    ensures var both := React(React(o, Pick(r.contentId)), Mark(1));
      both.busy == [Delivery(r, Submitted), Delivery(r, Submitted)] && UniqueIds(both.stored)
  {
    MarkedLooksUp(o.stored, r, r.contentId);
  }

  /** Then the later one, failing, takes an entry that has its receipt back to pending. */
  lemma OverlapUnreceipts<R>(o: Outbox<R>, receipt: R, nowMs: int)
    requires UniqueIds(o.stored) && InPhase(o, 0, Submitted) && InPhase(o, 1, Submitted)
    requires o.busy[0].record == o.busy[1].record
    ensures var id := o.busy[0].record.contentId;
      var one := React(o, End(0, Accepted(receipt)));
      var two := React(one, End(0, Failed(nowMs)));
      && Lookup(one.stored, id).Some? && Lookup(one.stored, id).value.state.Receipted?
      && Lookup(two.stored, id).Some? && Lookup(two.stored, id).value.state.Pending?
  {
    var r := o.busy[0].record;
    AnsweredLooksUp(o.stored, r, Accepted(receipt), r.contentId);
    var one := React(o, End(0, Accepted(receipt)));
    assert one.busy[0] == o.busy[1];
    AnsweredLooksUp(one.stored, r, Failed(nowMs), r.contentId);
  }
}
