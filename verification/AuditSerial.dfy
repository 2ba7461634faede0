/** Overlapping appends behave as appends made one at a time, and what they leave behind. */
module AuditSerial {
  import opened Wrappers
  import opened AuditChain
  import opened AuditText
  import opened AuditLog
  import opened AuditQueue

  /** The same calls made one after another; a call that was not served leaves the store as it is. */
  function Serial<C>(s: Setting<C>, start: Holding<C>, calls: seq<Call<C>>): Holding<C>
  {
    if calls == [] then start
    else
      var c, before := calls[|calls| - 1], Serial(s, start, calls[..|calls| - 1]);
      if c.stage.Served? then AppendOnce(s, before, c.item, c.stage.atMs, c.stage.diskOk).0 else before
  }

  ghost predicate AnswersAsSerial<C>(s: Setting<C>, start: Holding<C>, calls: seq<Call<C>>, i: nat)
    requires i < |calls|
  {
    var c := calls[i];
    c.stage.Served? ==>
      c.stage.outcome == AppendOnce(s, Serial(s, start, calls[..i]), c.item, c.stage.atMs, c.stage.diskOk).1
  }

  /** The record a call is writing is the one its append makes of the store as the calls before left it. */
  ghost predicate RecordCurrent<C>(s: Setting<C>, before: Holding<C>, store: Holding<C>, c: Call<C>)
  {
    && c.stage.Writing?
    && s.durable
    && Opened(s, before) == (store, None)
    && Latest(s.sch, store.log.records, s.sch.key(c.item)).None?
    && c.stage.record == NewRecord(s, store.log.records, c.item, c.stage.record.atMs)
  }

  ghost predicate IsSerial<C>(s: Setting<C>, start: Holding<C>, q: Chain<C>)
    requires |q.served| <= |q.calls|
  {
    var n := |q.served|;
    var before := Serial(s, start, q.calls[..n]);
    && (forall i :: 0 <= i < n ==> AnswersAsSerial(s, start, q.calls, i))
    && (if n < |q.calls| && q.calls[n].stage.Writing? then RecordCurrent(s, before, q.store, q.calls[n])
        else q.store == before)
  }

  /** The next call's work settles: the store is as its append leaves it and it got the append's answer. */
  lemma SettlesAsSerial<C>(s: Setting<C>, start: Holding<C>, q: Chain<C>, k: nat, stage: Stage<C>, store: Holding<C>)
    requires k == |q.served| < |q.calls| && IsSerial(s, start, q) && Over(stage)
    requires var before := Serial(s, start, q.calls[..k]);
      if stage.Served? then (store, stage.outcome) == AppendOnce(s, before, q.calls[k].item, stage.atMs, stage.diskOk)
      else store == before
    requires k + 1 < |q.calls| ==> q.calls[k + 1].stage.Waiting?
    ensures IsSerial(s, start, Go(q.(store := store), k, stage))
  {
    var after := Go(q.(store := store), k, stage);
    assert after.calls[..k + 1][..k] == q.calls[..k];
    forall i | 0 <= i < k + 1 ensures AnswersAsSerial(s, start, after.calls, i) {
      assert after.calls[..i] == q.calls[..i];
      if i < k {
        assert AnswersAsSerial(s, start, q.calls, i);
      }
    }
  }

  /** Anything else that happens leaves the calls that are over, and what they left, as they are. */
  lemma StaysSerial<C>(s: Setting<C>, start: Holding<C>, q: Chain<C>, after: Chain<C>)
    requires |q.served| <= |q.calls| <= |after.calls| && IsSerial(s, start, q)
    requires after.served == q.served && after.store == q.store
    requires after.calls[..|q.served|] == q.calls[..|q.served|]
    requires var n := |q.served|;
      n < |after.calls| && after.calls[n].stage.Writing? <==> n < |q.calls| && q.calls[n].stage.Writing?
    requires var n := |q.served|;
      n < |q.calls| && q.calls[n].stage.Writing? ==>
        after.calls[n].stage == q.calls[n].stage && after.calls[n].item == q.calls[n].item
    ensures IsSerial(s, start, after)
  {
    var n := |q.served|;
    forall i | 0 <= i < n ensures AnswersAsSerial(s, start, after.calls, i) {
      assert AnswersAsSerial(s, start, q.calls, i);
      assert after.calls[..i] == after.calls[..n][..i] == q.calls[..i];
      assert after.calls[i] == after.calls[..n][i] == q.calls[i];
    }
  }

  /** Only the first call that is not over can have begun. */
  lemma OthersWait<C>(caught: bool, q: Chain<C>, k: nat)
    requires Inv(caught, q) && k < |q.calls| && !q.calls[k].stage.Waiting?
    ensures k <= |q.served|
    ensures !Over(q.calls[k].stage) ==> k == |q.served|
  {
    assert InTurn(caught, q, k);
    BegunIsNext(caught, q, k);
  }

  lemma BeginIsSerial<C>(s: Setting<C>, caught: bool, start: Holding<C>, q: Chain<C>, k: nat)
    requires Inv(caught, q) && IsSerial(s, start, q) && k < |q.calls| && q.calls[k].stage.Waiting?
    ensures IsSerial(s, start, Begin(q, k))
  {
    if q.promises[k] != Pending {
      BegunIsNext(caught, q, k);
      if q.promises[k] == Fulfilled {
        StaysSerial(s, start, q, Go(q, k, Started));
      } else {
        NextWaits(caught, q, k);
        SettlesAsSerial(s, start, q, k, Skipped, q.store);
      }
    }
  }

  lemma NextWaits<C>(caught: bool, q: Chain<C>, k: nat)
    requires Inv(caught, q) && k == |q.served|
    ensures k + 1 < |q.calls| ==> q.calls[k + 1].stage.Waiting?
  {
    if k + 1 < |q.calls| && !q.calls[k + 1].stage.Waiting? {
      OthersWait(caught, q, k + 1);
    }
  }

  lemma LookUpIsSerial<C>(s: Setting<C>, caught: bool, start: Holding<C>, q: Chain<C>, k: nat, nowMs: int)
    requires Inv(caught, q) && IsSerial(s, start, q) && k < |q.calls| && q.calls[k].stage.Started?
    ensures IsSerial(s, start, LookUp(s, q, k, nowMs))
  {
    OthersWait(caught, q, k);
    NextWaits(caught, q, k);
    var after := LookUp(s, q, k, nowMs);
    var stage := after.calls[k].stage;
    if stage.Served? {
      SettlesAsSerial(s, start, q, k, stage, after.store);
    } else {
      assert after.calls[..k] == q.calls[..k];
      forall i | 0 <= i < k ensures AnswersAsSerial(s, start, after.calls, i) {
        assert AnswersAsSerial(s, start, q.calls, i);
        assert after.calls[..i] == q.calls[..i];
      }
    }
  }

  lemma EndWriteIsSerial<C>(s: Setting<C>, caught: bool, start: Holding<C>, q: Chain<C>, k: nat, ok: bool)
    requires Inv(caught, q) && IsSerial(s, start, q) && k < |q.calls| && q.calls[k].stage.Writing?
    ensures IsSerial(s, start, EndWrite(s, q, k, ok))
  {
    OthersWait(caught, q, k);
    NextWaits(caught, q, k);
    var after := EndWrite(s, q, k, ok);
    SettlesAsSerial(s, start, q, k, after.calls[k].stage, after.store);
  }

  lemma ReactIsSerial<C>(s: Setting<C>, caught: bool, start: Holding<C>, q: Chain<C>, e: Event<C>)
    requires Inv(caught, q) && IsSerial(s, start, q)
    ensures var after := React(s, caught, q, e); |after.served| <= |after.calls| && IsSerial(s, start, after)
  {
    ReactKeepsInv(s, caught, q, e);
    match e
    case Invoke(item) => StaysSerial(s, start, q, Ask(q, item));
    case Start(k) =>
      if k < |q.calls| && q.calls[k].stage.Waiting? {
        BeginIsSerial(s, caught, start, q, k);
      }
    case Look(k, nowMs) =>
      if k < |q.calls| && q.calls[k].stage.Started? {
        LookUpIsSerial(s, caught, start, q, k, nowMs);
      }
    case WriteDone(k, ok) =>
      if k < |q.calls| && q.calls[k].stage.Writing? {
        EndWriteIsSerial(s, caught, start, q, k, ok);
      }
    case Settle(k) => StaysSerial(s, start, q, React(s, caught, q, e));
  }

  lemma {:induction false} RunIsSerial<C>(s: Setting<C>, caught: bool, start: Holding<C>, q: Chain<C>,
                                          events: seq<Event<C>>)
    requires Inv(caught, q) && IsSerial(s, start, q)
    ensures var after := Run(s, caught, q, events);
      Inv(caught, after) && IsSerial(s, start, after)
    decreases |events|
  {
    if events != [] {
      ReactKeepsInv(s, caught, q, events[0]);
      ReactIsSerial(s, caught, start, q, events[0]);
      RunIsSerial(s, caught, start, React(s, caught, q, events[0]), events[1..]);
    }
  }

  /**
   Overlapping appends behave as if made one at a time in the order they were called: over every run,
   each call that was served got the answer of its place in the serial run, and the store is as that
   run leaves it, or loaded and otherwise so while a record is being written.
   */
  lemma Linearises<C>(s: Setting<C>, caught: bool, start: Holding<C>, events: seq<Event<C>>)
    ensures var q := Run(s, caught, NewChain(start), events);
      var serial := Serial(s, start, q.calls);
      && Items(q.calls) == Invoked(events)
      && (forall i :: 0 <= i < |q.calls| ==> AnswersAsSerial(s, start, q.calls, i))
      && (q.store == serial || (Opened(s, serial) == (q.store, None) && exists c :: c in q.calls && c.stage.Writing?))
  {
    var q := Run(s, caught, NewChain(start), events);
    assert Inv(caught, NewChain(start)) && IsSerial(s, start, NewChain(start));
    RunIsSerial(s, caught, start, NewChain(start), events);
    RunKeepsItems(s, caught, NewChain(start), events);
    UnservedLeave(s, start, q.calls, |q.served|);
    assert q.calls[..|q.calls|] == q.calls;
    forall i | 0 <= i < |q.calls| ensures AnswersAsSerial(s, start, q.calls, i) {
      assert i >= |q.served| ==> !q.calls[i].stage.Served?;
    }
    if q.store != Serial(s, start, q.calls) {
      assert q.calls[|q.served|] in q.calls;
    }
  }

  lemma {:induction false} UnservedLeave<C>(s: Setting<C>, start: Holding<C>, calls: seq<Call<C>>, n: nat)
    requires n <= |calls| && forall i :: n <= i < |calls| ==> !calls[i].stage.Served?
    ensures Serial(s, start, calls) == Serial(s, start, calls[..n])
    decreases |calls|
  {
    if n < |calls| {
      var rest := calls[..|calls| - 1];
      UnservedLeave(s, start, rest, n);
      assert rest[..n] == calls[..n];
    } else {
      assert calls[..n] == calls;
    }
  }

  // ---------------------------------------------------------------- what a run leaves behind

  function IfCreated<C>(outcome: Outcome<C>): seq<Record<C>>
  {
    if outcome.Created? then [outcome.record] else []
  }

  function CreatedRecords<C>(calls: seq<Call<C>>): seq<Record<C>>
  {
    if calls == [] then []
    else
      var stage := calls[|calls| - 1].stage;
      CreatedRecords(calls[..|calls| - 1]) + (if stage.Served? then IfCreated(stage.outcome) else [])
  }

  function FirstRecords<C>(s: Setting<C>, start: Holding<C>): seq<Record<C>>
  {
    if start.ready then start.log.records else LoadedFrom(s, start.log.file)
  }

  /** Records under keys that none of the first has and no two of them share. */
  ghost predicate NewKeys<C>(sch: Schema<C>, first: seq<Record<C>>, created: seq<Record<C>>)
  {
    && DistinctKeys(sch, created)
    && forall q, r :: q in first && r in created ==> sch.key(q.item) != sch.key(r.item)
  }

  lemma NewKeysDistinct<C>(sch: Schema<C>, first: seq<Record<C>>, created: seq<Record<C>>)
    requires NewKeys(sch, first, created)
    ensures DistinctKeys(sch, first) ==> DistinctKeys(sch, first + created)
  {
    var all := first + created;
    assert forall i :: 0 <= i < |first| ==> all[i] in first;
    assert forall i :: |first| <= i < |all| ==> all[i] in created && all[i] == created[i - |first|];
  }

  /** A store that came from `start` by creating these records. */
  ghost predicate GrownBy<C>(s: Setting<C>, start: Holding<C>, st: Holding<C>, created: seq<Record<C>>)
  {
    && Consistent(s, st) && Whole(s, st)
    && NewKeys(s.sch, FirstRecords(s, start), created)
    && (st.ready ==> st.log.records == FirstRecords(s, start) + created)
    && (!st.ready ==> !start.ready && created == [] && st.log.file == start.log.file)
  }

  lemma OpeningGrows<C>(s: Setting<C>, start: Holding<C>, st: Holding<C>, created: seq<Record<C>>)
    requires GrownBy(s, start, st, created)
    ensures GrownBy(s, start, Opened(s, st).0, created)
  {
    if !st.ready {
      OpenedExactly(s, st);
      assert FirstRecords(s, start) + [] == FirstRecords(s, start);
    }
  }

  lemma AppendAccounted<C>(s: Setting<C>, first: seq<Record<C>>, log: Log<C>, created: seq<Record<C>>,
                           item: C, nowMs: int, diskOk: bool)
    requires NewKeys(s.sch, first, created) && log.records == first + created
    ensures var (after, outcome) := AppendTo(s, log, item, nowMs, diskOk);
      && NewKeys(s.sch, first, created + IfCreated(outcome))
      && after.records == first + (created + IfCreated(outcome))
  {
    var (after, outcome) := AppendTo(s, log, item, nowMs, diskOk);
    assert (first + created) + IfCreated(outcome) == first + (created + IfCreated(outcome));
    assert forall r :: r in first + created <==> r in first || r in created;
    assert forall i :: 0 <= i < |created| ==> created[i] in created;
  }

  lemma AppendGrows<C(!new)>(s: Setting<C>, start: Holding<C>, st: Holding<C>, created: seq<Record<C>>,
                             item: C, nowMs: int, diskOk: bool)
    requires JsonLines(s.k) && GrownBy(s, start, st, created)
    ensures var (after, outcome) := AppendOnce(s, st, item, nowMs, diskOk);
      GrownBy(s, start, after, created + IfCreated(outcome))
  {
    AppendOnceKeeps(s, st, item, nowMs, diskOk);
    OpeningGrows(s, start, st, created);
    var (o, error) := Opened(s, st);
    if error.None? {
      assert Sound(s, o.log);
      AppendAccounted(s, FirstRecords(s, start), o.log, created, item, nowMs, diskOk);
    } else {
      assert created + [] == created;
    }
  }

  lemma {:induction false} SerialGrows<C(!new)>(s: Setting<C>, start: Holding<C>, calls: seq<Call<C>>)
    requires JsonLines(s.k) && Consistent(s, start) && Whole(s, start)
    requires forall i :: 0 <= i < |calls| ==> AnswersAsSerial(s, start, calls, i)
    ensures GrownBy(s, start, Serial(s, start, calls), CreatedRecords(calls))
    decreases |calls|
  {
    if calls != [] {
      var m := |calls| - 1;
      var rest, c := calls[..m], calls[m];
      forall i | 0 <= i < m ensures AnswersAsSerial(s, start, rest, i) {
        assert AnswersAsSerial(s, start, calls, i);
        assert rest[..i] == calls[..i];
      }
      SerialGrows(s, start, rest);
      if c.stage.Served? {
        AppendGrows(s, start, Serial(s, start, rest), CreatedRecords(rest), c.item, c.stage.atMs, c.stage.diskOk);
        assert AnswersAsSerial(s, start, calls, m);
      }
    } else {
      assert FirstRecords(s, start) + [] == FirstRecords(s, start);
    }
  }

  // ---------------------------------------------------------------- whose record, and when

  /** The time of a call that is being written or was served is one at which it looked the key up. */
  ghost predicate TimeSeen<C>(k: nat, stage: Stage<C>, seen: seq<Event<C>>)
  {
    match stage
    case Writing(r) => Look(k, r.atMs) in seen
    case Served(atMs, _, _) => Look(k, atMs) in seen
    case _ => true
  }

  ghost predicate TimesSeen<C>(q: Chain<C>, seen: seq<Event<C>>)
  {
    forall k :: 0 <= k < |q.calls| ==> TimeSeen(k, q.calls[k].stage, seen)
  }

  lemma ReactTimes<C>(s: Setting<C>, caught: bool, q: Chain<C>, e: Event<C>, seen: seq<Event<C>>)
    requires TimesSeen(q, seen)
    ensures TimesSeen(React(s, caught, q, e), seen + [e])
  {
    var after := React(s, caught, q, e);
    forall k | 0 <= k < |after.calls| ensures TimeSeen(k, after.calls[k].stage, seen + [e]) {
      if k < |q.calls| {
        assert TimeSeen(k, q.calls[k].stage, seen);
        if e.Look? && e.k == k {
          var st := Opened(s, q.store).0;
          NewRecordIs(s, st.log, q.calls[k].item, e.nowMs);
        }
      }
    }
  }

  lemma {:induction false} RunTimes<C>(s: Setting<C>, caught: bool, q: Chain<C>, seen: seq<Event<C>>,
                                       events: seq<Event<C>>)
    requires TimesSeen(q, seen)
    ensures TimesSeen(Run(s, caught, q, events), seen + events)
    decreases |events|
  {
    if events == [] {
      assert seen + events == seen;
    } else {
      ReactTimes(s, caught, q, events[0], seen);
      RunTimes(s, caught, React(s, caught, q, events[0]), seen + [events[0]], events[1..]);
      assert seen + [events[0]] + events[1..] == seen + events;
    }
  }

  /** A created record is of the call's item, at a time at which the call looked its key up. */
  ghost predicate OwnRecord<C>(k: nat, c: Call<C>, events: seq<Event<C>>)
  {
    c.stage.Served? && c.stage.outcome.Created? ==>
      c.stage.outcome.record.item == c.item && Look(k, c.stage.outcome.record.atMs) in events
  }

  lemma AppendOnceOwn<C>(s: Setting<C>, st: Holding<C>, item: C, nowMs: int, diskOk: bool)
    requires AppendOnce(s, st, item, nowMs, diskOk).1.Created?
    ensures var r := AppendOnce(s, st, item, nowMs, diskOk).1.record; r.item == item && r.atMs == nowMs
  {
    AppendOpened(s, st, item, nowMs, diskOk);
    AppendRecords(s, Opened(s, st).0.log, item, nowMs, diskOk);
  }

  /** Over any run every record an append answered with is its own, and so is its time. */
  lemma RecordsAreOwn<C>(s: Setting<C>, caught: bool, start: Holding<C>, events: seq<Event<C>>)
    ensures var q := Run(s, caught, NewChain(start), events);
      forall k :: 0 <= k < |q.calls| ==> OwnRecord(k, q.calls[k], events)
  {
    var q := Run(s, caught, NewChain(start), events);
    Linearises(s, caught, start, events);
    RunTimes(s, caught, NewChain(start), [], events);
    assert [] + events == events;
    forall k | 0 <= k < |q.calls| ensures OwnRecord(k, q.calls[k], events) {
      var c := q.calls[k];
      assert AnswersAsSerial(s, start, q.calls, k) && TimeSeen(k, c.stage, events);
      if c.stage.Served? && c.stage.outcome.Created? {
        AppendOnceOwn(s, Serial(s, start, q.calls[..k]), c.item, c.stage.atMs, c.stage.diskOk);
      }
    }
  }

  /**
   Over any run from a store on a data file that has ended its last line, ready or not: once it is
   ready the records are one chain, those of the start followed by those the created appends answered,
   in order, and at every moment the data file loads as exactly these records; appends that failed have
   left nothing. While it is not, nothing was created or written. Whatever the file held, the created
   records have new keys, each its own; so there is one record a key if there was at the start. Each has
   the item of the call it answered and a time at which that call looked, in memory and in the file.
   */
  lemma RunKeepsLog<C(!new)>(s: Setting<C>, caught: bool, start: Holding<C>, events: seq<Event<C>>)
    requires JsonLines(s.k) && Consistent(s, start) && Whole(s, start)
    ensures var q := Run(s, caught, NewChain(start), events);
      var log := q.store.log;
      && NewKeys(s.sch, FirstRecords(s, start), CreatedRecords(q.calls))
      && (forall k :: 0 <= k < |q.calls| ==> OwnRecord(k, q.calls[k], events))
      && (if q.store.ready then
        && Chained(s.sch, s.sha, log.records)
        && (DistinctKeys(s.sch, FirstRecords(s, start)) ==> DistinctKeys(s.sch, log.records))
        && log.records == FirstRecords(s, start) + CreatedRecords(q.calls)
        && (s.durable ==> LoadText(s.sch, s.sha, s.k, log.file) == Loading(log.records, None))
      else CreatedRecords(q.calls) == [] && log.file == start.log.file)
  {
    var q := Run(s, caught, NewChain(start), events);
    Linearises(s, caught, start, events);
    SerialGrows(s, start, q.calls);
    OpeningGrows(s, start, Serial(s, start, q.calls), CreatedRecords(q.calls));
    NewKeysDistinct(s.sch, FirstRecords(s, start), CreatedRecords(q.calls));
    RecordsAreOwn(s, caught, start, events);
  }

  /** Without the chain two overlapping appends link to the same record, and the chain is broken. */
  lemma WithoutTheChain<C(!new)>(s: Setting<C>, records: seq<Record<C>>, x: C, y: C, t: int, u: int)
    requires CollisionFree(s.sha) && Faithful(s.sch) && Chained(s.sch, s.sha, records)
    ensures !Chained(s.sch, s.sha, records + [NewRecord(s, records, x, t)] + [NewRecord(s, records, y, u)])
  {
    var first := records + [NewRecord(s, records, x, t)];
    var second := NewRecord(s, records, y, u);
    ChainedSnoc(s.sch, s.sha, records, NewRecord(s, records, x, t));
    TruncationAccepted(s.sch, s.sha, first, |records|);
    assert first[..|records|] == records;
    ChainedSnoc(s.sch, s.sha, first, second);
  }
}
