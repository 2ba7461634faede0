/** When a note that a certificate was delivered stays on the device, over runs of overlapping forwardings. */
module AuditNotes {
  import opened Wrappers
  import opened AuditChain
  import opened AuditText
  import opened AuditLog
  import opened AuditClient

  /** The deliveries note the service as done. */
  predicate DeliveredTo(deliveries: seq<Delivery>, sid: string)
  {
    var p := PreviousOf(deliveries, sid);
    p.Some? && p.value.delivered
  }

  /** The last of these services with the identifier: its note is the one that counts. */
  function LastOf(services: seq<Service>, sid: string): (i: Option<nat>)
    ensures i.Some? ==> i.value < |services| && services[i.value].id == sid
    ensures i.None? <==> forall x :: x in services ==> x.id != sid
  {
    if services == [] then None
    else if services[|services| - 1].id == sid then Some(|services| - 1)
    else LastOf(services[..|services| - 1], sid)
  }

  lemma {:induction false} PreviousAtLast(deliveries: seq<Delivery>, services: seq<Service>, sid: string)
    requires |deliveries| == |services|
    requires forall i :: 0 <= i < |deliveries| ==> deliveries[i].serviceId == services[i].id
    ensures match LastOf(services, sid)
      case None => PreviousOf(deliveries, sid).None?
      case Some(i) => PreviousOf(deliveries, sid) == Some(deliveries[i])
    decreases |services|
  {
    if services != [] {
      var m := |services| - 1;
      if services[m].id != sid {
        PreviousAtLast(deliveries[..m], services[..m], sid);
      }
    }
  }

  // ---------------------------------------------------------------- forwardings under way

  /** The notes of a forwarding are of its services, one each. */
  predicate JobWellMade<C>(j: Job<C>)
  {
    && |j.noted| == |j.services|
    && forall i :: 0 <= i < |j.noted| && j.noted[i].Some? ==> j.noted[i].value.serviceId == j.services[i].id
  }

  /** Records are kept under their identifiers, and forwardings are well made. */
  ghost predicate WellMade<C>(p: Parties<C>, w: World<C>)
  {
    && (forall id :: id in w.stored ==> p.idOf(w.stored[id].item) == id)
    && (forall k :: 0 <= k < |w.jobs| ==> JobWellMade(w.jobs[k]))
  }

  /** Whatever becomes of its requests, the record this forwarding writes notes the service as done. */
  predicate KeepsNote<C>(j: Job<C>, sid: string)
    requires JobWellMade(j)
  {
    match LastOf(j.services, sid)
    case None => false
    case Some(i) =>
      if j.noted[i].Some? then j.noted[i].value.delivered else DeliveredTo(j.record.deliveries, sid)
  }

  lemma WrittenNotes<C>(j: Job<C>, sid: string)
    requires JobWellMade(j) && forall i :: 0 <= i < |j.noted| ==> j.noted[i].Some?
    ensures DeliveredTo(AuditClient.Written(j).deliveries, sid) <==> KeepsNote(j, sid)
  {
    PreviousAtLast(AuditClient.Written(j).deliveries, j.services, sid);
  }

  lemma NoteKeepsMade<C>(p: Parties<C>, w: World<C>, job: nat, i: nat, d: Delivery)
    requires WellMade(p, w) && Open(w, job, i) && d.serviceId == w.jobs[job].services[i].id
    ensures WellMade(p, NoteIn(w, job, i, d))
  {
    var after := NoteIn(w, job, i, d);
    forall k | 0 <= k < |after.jobs| ensures JobWellMade(after.jobs[k]) {
      assert JobWellMade(w.jobs[k]);
    }
  }

  /** What a request can do: it notes something of its service and touches no stored record. */
  lemma AskNotes<C>(p: Parties<C>, w: World<C>, job: nat, i: nat, fate: Fate) returns (d: Delivery)
    requires Open(w, job, i)
    ensures var after := Ask(p, w, job, i, fate);
      after.stored == w.stored && after.jobs == NoteIn(w, job, i, d).jobs
    ensures d.serviceId == w.jobs[job].services[i].id
    ensures DeliveredTo(w.jobs[job].record.deliveries, d.serviceId) ==> d.delivered
    ensures fate.Lost? ==> (d.delivered <==> DeliveredTo(w.jobs[job].record.deliveries, d.serviceId))
  {
    var j := w.jobs[job];
    var service := j.services[i];
    if AlreadyDelivered(j.record.deliveries, service) || fate.Lost? {
      d := Noted(j.record.deliveries, service, false);
    } else {
      var (servers, ok) := Post(p, w.servers, service.address, j.record.item, fate.nowMs, fate.diskOk);
      d := Noted(j.record.deliveries, service, ok && !fate.replyLost);
    }
  }

  lemma ReactKeepsMade<C>(p: Parties<C>, w: World<C>, e: Event<C>)
    requires WellMade(p, w)
    ensures WellMade(p, React(p, w, e))
  {
    var after := React(p, w, e);
    match e
    case Request(job, i, fate) =>
      if Open(w, job, i) {
        var d := AskNotes(p, w, job, i, fate);
        NoteKeepsMade(p, w, job, i, d);
      }
    case Write(job) =>
      if Finished(w, job) {
        forall k | 0 <= k < |after.jobs| ensures JobWellMade(after.jobs[k]) {
          assert after.jobs[k] == w.jobs[if k < job then k else k + 1];
        }
      }
    case _ =>
  }

  lemma {:induction false} RunKeepsMade<C>(p: Parties<C>, w: World<C>, events: seq<Event<C>>)
    requires WellMade(p, w)
    ensures WellMade(p, Run(p, w, events))
    decreases |events|
  {
    if events != [] {
      ReactKeepsMade(p, w, events[0]);
      RunKeepsMade(p, React(p, w, events[0]), events[1..]);
    }
  }

  // ---------------------------------------------------------------- when a note stays

  /** The certificate is not stored anew, and when it is forwarded again the service is in the list. */
  ghost predicate StillListed<C>(p: Parties<C>, e: Event<C>, id: string, sid: string)
  {
    match e
    case Store(item, _, _) => p.idOf(item) != id
    case Retry(other, services) => other == id ==> LastOf(services, sid).Some?
    case _ => true
  }

  ghost predicate AllStillListed<C>(p: Parties<C>, events: seq<Event<C>>, id: string, sid: string)
  {
    forall e :: e in events ==> StillListed(p, e, id, sid)
  }

  ghost predicate IsNoted<C>(w: World<C>, id: string, sid: string)
  {
    id in w.stored && DeliveredTo(w.stored[id].deliveries, sid)
  }

  /** The service stays noted whatever happens next, while it is listed and nothing is stored anew. */
  ghost predicate NoteStays<C(!new)>(p: Parties<C>, w: World<C>, id: string, sid: string)
  {
    forall events :: AllStillListed(p, events, id, sid) ==> IsNoted(Run(p, w, events), id, sid)
  }

  /** Every forwarding of the certificate under way keeps the note. */
  ghost predicate AllKeepNote<C>(p: Parties<C>, w: World<C>, id: string, sid: string)
    requires WellMade(p, w)
  {
    forall k :: 0 <= k < |w.jobs| && p.idOf(w.jobs[k].record.item) == id ==> KeepsNote(w.jobs[k], sid)
  }

  lemma NotedKeepsNote<C>(j: Job<C>, i: nat, d: Delivery, sid: string)
    requires JobWellMade(j) && KeepsNote(j, sid) && i < |j.noted| && j.noted[i].None?
    requires d.serviceId == j.services[i].id
    requires DeliveredTo(j.record.deliveries, d.serviceId) ==> d.delivered
    ensures var after := j.(noted := j.noted[i := Some(d)]);
      JobWellMade(after) && KeepsNote(after, sid)
  {}

  lemma RequestKeepsNote<C>(p: Parties<C>, w: World<C>, job: nat, i: nat, fate: Fate, id: string, sid: string)
    requires WellMade(p, w) && Open(w, job, i) && AllKeepNote(p, w, id, sid)
    requires WellMade(p, Ask(p, w, job, i, fate))
    ensures AllKeepNote(p, Ask(p, w, job, i, fate), id, sid)
  {
    var d := AskNotes(p, w, job, i, fate);
    var after := Ask(p, w, job, i, fate);
    forall k | 0 <= k < |after.jobs| && p.idOf(after.jobs[k].record.item) == id ensures KeepsNote(after.jobs[k], sid) {
      if k == job {
        NotedKeepsNote(w.jobs[job], i, d, sid);
      } else {
        assert after.jobs[k] == w.jobs[k];
      }
    }
  }

  lemma StepKeepsNote<C>(p: Parties<C>, w: World<C>, e: Event<C>, id: string, sid: string)
    requires WellMade(p, w) && IsNoted(w, id, sid) && AllKeepNote(p, w, id, sid) && StillListed(p, e, id, sid)
    ensures var after := React(p, w, e);
      WellMade(p, after) && IsNoted(after, id, sid) && AllKeepNote(p, after, id, sid)
  {
    ReactKeepsMade(p, w, e);
    var after := React(p, w, e);
    match e
    case Request(job, i, fate) =>
      if Open(w, job, i) {
        var d := AskNotes(p, w, job, i, fate);
        assert after.stored == w.stored;
        RequestKeepsNote(p, w, job, i, fate, id, sid);
      }
    case Write(job) =>
      if Finished(w, job) {
        WrittenNotes(w.jobs[job], sid);
        forall k | 0 <= k < |after.jobs| && p.idOf(after.jobs[k].record.item) == id
          ensures KeepsNote(after.jobs[k], sid)
        {
          assert after.jobs[k] == w.jobs[if k < job then k else k + 1];
        }
      }
    case _ =>
  }

  lemma {:induction false} RunKeepsNote<C>(p: Parties<C>, w: World<C>, events: seq<Event<C>>, id: string, sid: string)
    requires WellMade(p, w) && IsNoted(w, id, sid) && AllKeepNote(p, w, id, sid)
    requires AllStillListed(p, events, id, sid)
    ensures IsNoted(Run(p, w, events), id, sid)
    decreases |events|
  {
    if events != [] {
      assert events[0] in events;
      StepKeepsNote(p, w, events[0], id, sid);
      RunKeepsNote(p, React(p, w, events[0]), events[1..], id, sid);
    }
  }

  // ---------------------------------------------------------------- how it gets lost

  /** The requests of a forwarding that are still open get lost, and then it writes. */
  function Losing<C>(job: nat, i: nat, n: nat): (events: seq<Event<C>>)
    requires i <= n
    ensures forall e :: e in events ==> e.Request? || e.Write?
    decreases n - i
  {
    if i == n then [Write(job)] else [Request(job, i, Lost)] + Losing(job, i + 1, n)
  }

  lemma RunFirst<C>(p: Parties<C>, w: World<C>, e: Event<C>, rest: seq<Event<C>>)
    ensures Run(p, w, [e] + rest) == Run(p, React(p, w, e), rest)
  {
    assert ([e] + rest)[1..] == rest;
  }

  /** A lost request leaves the forwarding as likely to keep the note as it was. */
  lemma LostNotes<C>(p: Parties<C>, w: World<C>, k: nat, i: nat, sid: string)
    requires WellMade(p, w) && k < |w.jobs| && i < |w.jobs[k].noted| && !KeepsNote(w.jobs[k], sid)
    ensures var after := React(p, w, Request(k, i, Lost));
      && WellMade(p, after) && |after.jobs| == |w.jobs| && after.jobs[k].record == w.jobs[k].record
      && |after.jobs[k].noted| == |w.jobs[k].noted| && after.jobs[k].noted[i].Some?
      && (forall m :: 0 <= m < |w.jobs[k].noted| && m != i ==> after.jobs[k].noted[m] == w.jobs[k].noted[m])
      && !KeepsNote(after.jobs[k], sid)
  {
    ReactKeepsMade(p, w, Request(k, i, Lost));
    if Open(w, k, i) {
      var d := AskNotes(p, w, k, i, Lost);
    }
  }

  lemma {:induction false} LosingForgets<C>(p: Parties<C>, w: World<C>, k: nat, i: nat, sid: string)
    requires WellMade(p, w) && k < |w.jobs| && i <= |w.jobs[k].noted| && !KeepsNote(w.jobs[k], sid)
    requires forall m :: 0 <= m < i ==> w.jobs[k].noted[m].Some?
    ensures !IsNoted(Run(p, w, Losing(k, i, |w.jobs[k].noted|)), p.idOf(w.jobs[k].record.item), sid)
    decreases |w.jobs[k].noted| - i
  {
    var n := |w.jobs[k].noted|;
    if i == n {
      WrittenNotes(w.jobs[k], sid);
      RunFirst(p, w, Write(k), []);
      assert Losing<C>(k, i, n) == [Write(k)] + [];
    } else {
      LostNotes(p, w, k, i, sid);
      LosingForgets(p, React(p, w, Request(k, i, Lost)), k, i + 1, sid);
      RunFirst(p, w, Request(k, i, Lost), Losing(k, i + 1, n));
    }
  }

  /**
   A delivered note stays over every run in which the certificate is not stored anew and each new
   forwarding lists the service, exactly when every forwarding of it already under way keeps the note:
   the service is in its list, and was noted at its start or has answered it well. One that does not
   writes the record back as it was when it started. Storing the certificate anew always forgets.
   */
  lemma NoteStaysExactly<C(!new)>(p: Parties<C>, w: World<C>, id: string, sid: string)
    requires WellMade(p, w) && IsNoted(w, id, sid)
    ensures NoteStays(p, w, id, sid) <==> AllKeepNote(p, w, id, sid)
    ensures forall e: Event<C> :: e.Store? && p.idOf(e.item) == id ==> !IsNoted(React(p, w, e), id, sid)
  {
    if AllKeepNote(p, w, id, sid) {
      forall events | AllStillListed(p, events, id, sid) ensures IsNoted(Run(p, w, events), id, sid) {
        RunKeepsNote(p, w, events, id, sid);
      }
    } else {
      var k :| 0 <= k < |w.jobs| && p.idOf(w.jobs[k].record.item) == id && !KeepsNote(w.jobs[k], sid);
      var events: seq<Event<C>> := Losing(k, 0, |w.jobs[k].noted|);
      LosingForgets(p, w, k, 0, sid);
      assert AllStillListed(p, events, id, sid);
    }
  }

  /** A forwarding to one service after its only request. */
  function Answered<C>(record: Stored<C>, s: Service, ok: bool): (j: Job<C>)
    ensures JobWellMade(j)
  {
    Job(record, [s], [Some(Delivery(s.id, s.address, ok))])
  }

  lemma OnlyRequest<C>(p: Parties<C>, w: World<C>, k: nat, record: Stored<C>, s: Service, fate: Fate)
    requires k < |w.jobs| && w.jobs[k] == NewJob(record, [s]) && record.deliveries == []
    ensures var after, ok := React(p, w, Request(k, 0, fate)), Succeeds(p, w.servers, s.address, record.item, fate);
      after.jobs == w.jobs[k := Answered(record, s, ok)] && after.stored == w.stored
  {
    assert Open(w, k, 0);
    assert NewJob(record, [s]).noted[0 := Some(Delivery(s.id, s.address, true))] == Answered(record, s, true).noted;
    assert NewJob(record, [s]).noted[0 := Some(Delivery(s.id, s.address, false))] == Answered(record, s, false).noted;
  }

  /** The client learns that the service holds the certificate. */
  predicate Succeeds<C>(p: Parties<C>, servers: map<string, Log<C>>, address: string, item: C, fate: Fate)
  {
    fate.Served? && !fate.replyLost && Post(p, servers, address, item, fate.nowMs, fate.diskOk).1
  }

  lemma OnlyWrite<C>(p: Parties<C>, w: World<C>, record: Stored<C>, s: Service, ok: bool)
    requires w.jobs != [] && w.jobs[0] == Answered(record, s, ok)
    ensures var after := React(p, w, Write(0));
      after.jobs == w.jobs[1..] && (IsNoted(after, p.idOf(record.item), s.id) <==> ok)
  {
    assert LastOf([s], s.id) == Some(0);
    WrittenNotes(Answered(record, s, ok), s.id);
    assert w.jobs[..0] + w.jobs[1..] == w.jobs[1..];
  }

  /**
   It can happen with one service that is in every list: of two forwardings the second loses its request
   and writes last, and the note the first one wrote is gone with nothing under way any more.
   */
  lemma LateWriteForgets<C>(p: Parties<C>, servers: map<string, Log<C>>, item: C, s: Service, nowMs: int, diskOk: bool)
    requires Post(p, servers, s.address, item, nowMs, diskOk).1
    ensures var id := p.idOf(item);
      var both := React(p, React(p, World(servers, map[], []), Store(item, 0, [s])), Retry(id, [s]));
      var asked := React(p, React(p, both, Request(0, 0, Served(nowMs, diskOk, false))), Request(1, 0, Lost));
      var one := React(p, asked, Write(0));
      var two := React(p, one, Write(0));
      && IsNoted(one, id, s.id)
      && !IsNoted(two, id, s.id) && two.jobs == []
  {
    var id, record := p.idOf(item), Stored(item, 0, []);
    var both := React(p, React(p, World(servers, map[], []), Store(item, 0, [s])), Retry(id, [s]));
    assert both.jobs == [NewJob(record, [s]), NewJob(record, [s])];
    OnlyRequest(p, both, 0, record, s, Served(nowMs, diskOk, false));
    var served := React(p, both, Request(0, 0, Served(nowMs, diskOk, false)));
    OnlyRequest(p, served, 1, record, s, Lost);
    var asked := React(p, served, Request(1, 0, Lost));
    assert asked.jobs == [Answered(record, s, true), Answered(record, s, false)];
    OnlyWrite(p, asked, record, s, true);
    OnlyWrite(p, React(p, asked, Write(0)), record, s, false);
  }
}
