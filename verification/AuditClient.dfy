/**
 The client that stores a certificate on the device and forwards it to the audit services until each
 has answered. Requests, replies and the final write of one forwarding interleave freely with those
 of others, replies get lost, and the app may stop at any moment.
 */
module AuditClient {
  import opened Wrappers
  import opened AuditChain
  import opened AuditText
  import opened AuditLog

  datatype Service = Service(id: string, address: string)

  datatype Delivery = Delivery(serviceId: string, address: string, delivered: bool)

  datatype Stored<C> = Stored(item: C, storedAtMs: int, deliveries: seq<Delivery>)

  /** `new Map(deliveries by service)`: the last delivery of a service counts. */
  function PreviousOf(deliveries: seq<Delivery>, id: string): (p: Option<Delivery>)
    ensures p.Some? ==> p.value in deliveries && p.value.serviceId == id
    ensures p.None? <==> forall d :: d in deliveries ==> d.serviceId != id
  {
    if deliveries == [] then None
    else
      var last := deliveries[|deliveries| - 1];
      if last.serviceId == id then Some(last) else PreviousOf(deliveries[..|deliveries| - 1], id)
  }

  predicate AlreadyDelivered(previous: seq<Delivery>, service: Service)
  {
    var p := PreviousOf(previous, service.id);
    p.Some? && p.value.delivered
  }

  /** What is noted for a service: its delivered note if it has one, else how this request went. */
  function Noted(previous: seq<Delivery>, service: Service, ok: bool): Delivery
  {
    if AlreadyDelivered(previous, service) then PreviousOf(previous, service.id).value
    else Delivery(service.id, service.address, ok)
  }

  // ---------------------------------------------------------------- one forwarding on its own

  function AllNoted(previous: seq<Delivery>, services: seq<Service>, oks: seq<bool>): (r: seq<Delivery>)
    requires |oks| == |services|
    ensures |r| == |services|
  {
    seq(|services|, i requires 0 <= i < |services| => Noted(previous, services[i], oks[i]))
  }

  /** The records kept on the device, by identifier. */
  class CertificateStorage<C> {
    var stored: map<string, Stored<C>>

    constructor ()
      ensures stored == map[]
    {
      stored := map[];
    }

    /** `new Map(deliveries.map(d => [d.serviceId, d]))` */
    static method ByService(deliveries: seq<Delivery>) returns (completed: map<string, Delivery>)
      ensures forall id :: (id in completed <==> PreviousOf(deliveries, id).Some?)
      ensures forall id :: id in completed ==> PreviousOf(deliveries, id) == Some(completed[id])
    {
      completed := map[];
      for i := 0 to |deliveries|
        invariant forall id :: (id in completed <==> PreviousOf(deliveries[..i], id).Some?)
        invariant forall id :: id in completed ==> PreviousOf(deliveries[..i], id) == Some(completed[id])
      {
        assert deliveries[..i + 1][..i] == deliveries[..i];
        completed := completed[deliveries[i].serviceId := deliveries[i]];
      }
      assert deliveries[..|deliveries|] == deliveries;
    }

    /** `oks` says which service would answer a request well; services already done get no request. */
    method Forward(idOf: C -> string, record: Stored<C>, services: seq<Service>, oks: seq<bool>)
      returns (updated: Stored<C>, requests: seq<Service>)
      requires |oks| == |services|
      modifies this
      ensures updated == record.(deliveries := AllNoted(record.deliveries, services, oks))
      ensures stored == old(stored)[idOf(record.item) := updated]
      ensures forall x :: x in requests <==> x in services && !AlreadyDelivered(record.deliveries, x)
    {
      var completed := ByService(record.deliveries);
      var deliveries := [];
      requests := [];
      for i := 0 to |services|
        invariant |deliveries| == i
        invariant forall j :: 0 <= j < i ==> deliveries[j] == Noted(record.deliveries, services[j], oks[j])
        invariant forall x :: x in requests <==> x in services[..i] && !AlreadyDelivered(record.deliveries, x)
      {
        var service := services[i];
        if service.id in completed && completed[service.id].delivered {
          deliveries := deliveries + [completed[service.id]];
        } else {
          requests := requests + [service];
          deliveries := deliveries + [Delivery(service.id, service.address, oks[i])];
        }
      }
      updated := record.(deliveries := deliveries);
      assert deliveries == AllNoted(record.deliveries, services, oks);
      stored := stored[idOf(record.item) := updated];
    }
  }

  /**
   A delivered note survives a forwarding exactly when its service is among those forwarded to: one
   that has left the list is forgotten, and asked again if it comes back.
   */
  lemma {:induction false} NoteSurvivesExactly(previous: seq<Delivery>, services: seq<Service>, oks: seq<bool>,
                                               id: string)
    requires |oks| == |services|
    requires PreviousOf(previous, id).Some? && PreviousOf(previous, id).value.delivered
    ensures PreviousOf(AllNoted(previous, services, oks), id) == PreviousOf(previous, id)
      <==> exists x :: x in services && x.id == id
    ensures PreviousOf(AllNoted(previous, services, oks), id).Some? <==> exists x :: x in services && x.id == id
    decreases |services|
  {
    if services != [] {
      var m := |services| - 1;
      var noted := AllNoted(previous, services, oks);
      assert noted[..m] == AllNoted(previous, services[..m], oks[..m]);
      NoteSurvivesExactly(previous, services[..m], oks[..m], id);
      assert services == services[..m] + [services[m]];
      if services[m].id == id {
        assert noted[m].serviceId == id;
      } else {
        assert noted[m].serviceId == services[m].id;
      }
    }
  }

  // ---------------------------------------------------------------- the world

  /** A forwarding under way: the record it started from and what is noted of each service so far. */
  datatype Job<C> = Job(record: Stored<C>, services: seq<Service>, noted: seq<Option<Delivery>>)

  datatype World<C> = World(servers: map<string, Log<C>>, stored: map<string, Stored<C>>, jobs: seq<Job<C>>)

  /** How a request fares: it gets lost, or is served at some time, its reply perhaps getting lost. */
  datatype Fate = Lost | Served(nowMs: int, diskOk: bool, replyLost: bool)

  datatype Event<C> =
    | Store(item: C, nowMs: int, services: seq<Service>)
    | Retry(id: string, services: seq<Service>)
    | Request(job: nat, i: nat, fate: Fate)
    | Write(job: nat)
    | Restart
    | OtherClient(address: string, item: C, nowMs: int, diskOk: bool)

  /** `accepts` is the service's check of a certificate before it is appended. */
  datatype Parties<!C> = Parties(s: Setting<C>, idOf: C -> string, accepts: C -> bool)

  function NewJob<C>(record: Stored<C>, services: seq<Service>): Job<C>
  {
    Job(record, services, seq(|services|, i => None))
  }

  /** A posted certificate: the service's logs after it, and whether the answer is a success. */
  function Post<C>(p: Parties<C>, servers: map<string, Log<C>>, address: string, item: C, nowMs: int, diskOk: bool):
    (map<string, Log<C>>, bool)
  {
    if address !in servers || !p.accepts(item) then (servers, false)
    else
      var (log, outcome) := AppendTo(p.s, servers[address], item, nowMs, diskOk);
      (servers[address := log], outcome.Created? || outcome.Existing?)
  }

  function NoteIn<C>(w: World<C>, job: nat, i: nat, d: Delivery): World<C>
    requires job < |w.jobs| && i < |w.jobs[job].noted|
  {
    var j := w.jobs[job];
    w.(jobs := w.jobs[job := j.(noted := j.noted[i := Some(d)])])
  }

  predicate Open<C>(w: World<C>, job: nat, i: nat)
  {
    job < |w.jobs| && i < |w.jobs[job].services| && i < |w.jobs[job].noted| && w.jobs[job].noted[i].None?
  }

  predicate Finished<C>(w: World<C>, job: nat)
  {
    job < |w.jobs| && forall i :: 0 <= i < |w.jobs[job].noted| ==> w.jobs[job].noted[i].Some?
  }

  function Ask<C>(p: Parties<C>, w: World<C>, job: nat, i: nat, fate: Fate): World<C>
    requires Open(w, job, i)
  {
    var j := w.jobs[job];
    var service := j.services[i];
    if AlreadyDelivered(j.record.deliveries, service) || fate.Lost? then
      NoteIn(w, job, i, Noted(j.record.deliveries, service, false))
    else
      var (servers, ok) := Post(p, w.servers, service.address, j.record.item, fate.nowMs, fate.diskOk);
      NoteIn(w, job, i, Noted(j.record.deliveries, service, ok && !fate.replyLost)).(servers := servers)
  }

  function Written<C>(j: Job<C>): Stored<C>
    requires forall i :: 0 <= i < |j.noted| ==> j.noted[i].Some?
  {
    j.record.(deliveries := seq(|j.noted|, i requires 0 <= i < |j.noted| => j.noted[i].value))
  }

  /** One event; an event that cannot happen now changes nothing. */
  function React<C>(p: Parties<C>, w: World<C>, e: Event<C>): World<C>
  {
    match e
    case Store(item, nowMs, services) =>
      var record := Stored(item, nowMs, []);
      w.(stored := w.stored[p.idOf(item) := record], jobs := w.jobs + [NewJob(record, services)])
    case Retry(id, services) =>
      if id in w.stored then w.(jobs := w.jobs + [NewJob(w.stored[id], services)]) else w
    case Request(job, i, fate) => if Open(w, job, i) then Ask(p, w, job, i, fate) else w
    case Write(job) =>
      if Finished(w, job) then
        var j := w.jobs[job];
        w.(stored := w.stored[p.idOf(j.record.item) := Written(j)], jobs := w.jobs[..job] + w.jobs[job + 1..])
      else w
    case Restart => w.(jobs := [])
    case OtherClient(address, item, nowMs, diskOk) =>
      w.(servers := Post(p, w.servers, address, item, nowMs, diskOk).0)
  }

  function Run<C>(p: Parties<C>, w: World<C>, events: seq<Event<C>>): World<C>
    decreases |events|
  {
    if events == [] then w else Run(p, React(p, w, events[0]), events[1..])
  }

  // ---------------------------------------------------------------- safety

  predicate HoldsItem<C>(sch: Schema<C>, log: Log<C>, item: C)
  {
    var r := Latest(sch, log.records, sch.key(item));
    r.Some? && sch.json(r.value.item) == sch.json(item)
  }

  /** A delivered note is true: the service at its address holds the certificate. */
  predicate TrueNote<C>(p: Parties<C>, servers: map<string, Log<C>>, item: C, d: Delivery)
  {
    d.delivered ==> d.address in servers && HoldsItem(p.s.sch, servers[d.address], item)
  }

  predicate TrueNotes<C>(p: Parties<C>, servers: map<string, Log<C>>, item: C, deliveries: seq<Delivery>)
  {
    forall d :: d in deliveries ==> TrueNote(p, servers, item, d)
  }

  predicate TrueJob<C>(p: Parties<C>, servers: map<string, Log<C>>, j: Job<C>)
  {
    && TrueNotes(p, servers, j.record.item, j.record.deliveries)
    && forall i :: 0 <= i < |j.noted| && j.noted[i].Some? ==> TrueNote(p, servers, j.record.item, j.noted[i].value)
  }

  ghost predicate SoundServers<C>(s: Setting<C>, servers: map<string, Log<C>>)
  {
    forall a :: a in servers ==> Sound(s, servers[a]) && DistinctKeys(s.sch, servers[a].records)
  }

  ghost predicate TrueWorld<C>(p: Parties<C>, w: World<C>)
  {
    && (forall id :: id in w.stored ==> TrueNotes(p, w.servers, w.stored[id].item, w.stored[id].deliveries))
    && (forall j :: j in w.jobs ==> TrueJob(p, w.servers, j))
  }

  /** What the services hold they keep. */
  ghost predicate Keep<C(!new)>(p: Parties<C>, before: map<string, Log<C>>, after: map<string, Log<C>>)
  {
    forall a :: a in before ==> a in after && KeepsItems(p.s.sch, before[a], after[a])
  }

  ghost predicate KeepsItems<C(!new)>(sch: Schema<C>, before: Log<C>, after: Log<C>)
  {
    && before.records <= after.records
    && forall item :: HoldsItem(sch, before, item) ==> HoldsItem(sch, after, item)
  }

  lemma AppendKeepsItems<C(!new)>(s: Setting<C>, log: Log<C>, item: C, nowMs: int, diskOk: bool)
    ensures var (after, outcome) := AppendTo(s, log, item, nowMs, diskOk);
      KeepsItems(s.sch, log, after) && (outcome.Created? || outcome.Existing? ==> HoldsItem(s.sch, after, item))
  {
    var (after, outcome) := AppendTo(s, log, item, nowMs, diskOk);
    if outcome.Created? {
      assert after.records[..|log.records|] == log.records;
    }
  }

  lemma PostKeeps<C(!new)>(p: Parties<C>, servers: map<string, Log<C>>, address: string, item: C, nowMs: int,
                           diskOk: bool)
    requires JsonLines(p.s.k) && SoundServers(p.s, servers)
    ensures var (after, ok) := Post(p, servers, address, item, nowMs, diskOk);
      && SoundServers(p.s, after)
      && Keep(p, servers, after)
      && (ok ==> address in after && HoldsItem(p.s.sch, after[address], item))
  {
    if address in servers && p.accepts(item) {
      AppendKeepsItems(p.s, servers[address], item, nowMs, diskOk);
      AppendKeepsSound(p.s, servers[address], item, nowMs, diskOk);
      AppendAddsAtMostOne(p.s, servers[address], item, nowMs, diskOk);
    }
  }

  lemma KeepKeepsTrue<C(!new)>(p: Parties<C>, w: World<C>, after: map<string, Log<C>>)
    requires TrueWorld(p, w) && Keep(p, w.servers, after)
    ensures TrueWorld(p, w.(servers := after))
  {
    forall j | j in w.jobs ensures TrueJob(p, after, j) {
      assert TrueJob(p, w.servers, j);
    }
  }

  lemma NoteKeepsTrue<C>(p: Parties<C>, w: World<C>, job: nat, i: nat, d: Delivery)
    requires TrueWorld(p, w) && Open(w, job, i) && TrueNote(p, w.servers, w.jobs[job].record.item, d)
    ensures TrueWorld(p, NoteIn(w, job, i, d))
  {
    var after := NoteIn(w, job, i, d);
    assert TrueJob(p, w.servers, w.jobs[job]);
    forall j | j in after.jobs ensures TrueJob(p, w.servers, j) {
      if j != after.jobs[job] {
        assert j in w.jobs;
      }
    }
  }

  lemma AskKeepsTrue<C(!new)>(p: Parties<C>, w: World<C>, job: nat, i: nat, fate: Fate)
    requires JsonLines(p.s.k) && SoundServers(p.s, w.servers) && TrueWorld(p, w) && Open(w, job, i)
    ensures SoundServers(p.s, Ask(p, w, job, i, fate).servers) && Keep(p, w.servers, Ask(p, w, job, i, fate).servers)
    ensures TrueWorld(p, Ask(p, w, job, i, fate))
  {
    var j := w.jobs[job];
    assert TrueJob(p, w.servers, j);
    var service := j.services[i];
    if AlreadyDelivered(j.record.deliveries, service) || fate.Lost? {
      NoteKeepsTrue(p, w, job, i, Noted(j.record.deliveries, service, false));
    } else {
      PostKeeps(p, w.servers, service.address, j.record.item, fate.nowMs, fate.diskOk);
      var (servers, ok) := Post(p, w.servers, service.address, j.record.item, fate.nowMs, fate.diskOk);
      KeepKeepsTrue(p, w, servers);
      NoteKeepsTrue(p, w.(servers := servers), job, i, Noted(j.record.deliveries, service, ok && !fate.replyLost));
    }
  }

  lemma WriteKeepsTrue<C(!new)>(p: Parties<C>, w: World<C>, job: nat)
    requires TrueWorld(p, w) && Finished(w, job)
    ensures TrueWorld(p, React(p, w, Write(job)))
  {
    var j := w.jobs[job];
    assert TrueJob(p, w.servers, j);
    var record := Written(j);
    forall d | d in record.deliveries ensures TrueNote(p, w.servers, record.item, d) {
      var i :| 0 <= i < |j.noted| && d == record.deliveries[i];
      assert d == j.noted[i].value;
    }
    assert forall x :: x in w.jobs[..job] + w.jobs[job + 1..] ==> x in w.jobs;
  }

  lemma ReactKeepsTrue<C(!new)>(p: Parties<C>, w: World<C>, e: Event<C>)
    requires JsonLines(p.s.k) && SoundServers(p.s, w.servers) && TrueWorld(p, w)
    ensures SoundServers(p.s, React(p, w, e).servers) && Keep(p, w.servers, React(p, w, e).servers)
    ensures TrueWorld(p, React(p, w, e))
  {
    match e
    case Store(item, nowMs, services) =>
      assert TrueJob(p, w.servers, NewJob(Stored(item, nowMs, []), services));
    case Retry(id, services) =>
      if id in w.stored {
        assert TrueJob(p, w.servers, NewJob(w.stored[id], services));
      }
    case Request(job, i, fate) =>
      if Open(w, job, i) {
        AskKeepsTrue(p, w, job, i, fate);
      }
    case Write(job) =>
      if Finished(w, job) {
        WriteKeepsTrue(p, w, job);
      }
    case Restart =>
    case OtherClient(address, item, nowMs, diskOk) =>
      PostKeeps(p, w.servers, address, item, nowMs, diskOk);
      KeepKeepsTrue(p, w, Post(p, w.servers, address, item, nowMs, diskOk).0);
  }

  /**
   Over every run, with any losses, overlaps, repeats and restarts: a service never holds two records
   with one key and never loses one, its log stays one chain, and a certificate noted as delivered is
   held by the service at the noted address.
   */
  lemma {:induction false} ForwardingIsSafe<C(!new)>(p: Parties<C>, w: World<C>, events: seq<Event<C>>)
    requires JsonLines(p.s.k) && SoundServers(p.s, w.servers) && TrueWorld(p, w)
    ensures var after := Run(p, w, events);
      && SoundServers(p.s, after.servers)
      && TrueWorld(p, after)
      && (forall a :: a in w.servers ==> a in after.servers && w.servers[a].records <= after.servers[a].records)
    decreases |events|
  {
    if events != [] {
      ReactKeepsTrue(p, w, events[0]);
      ForwardingIsSafe(p, React(p, w, events[0]), events[1..]);
    }
  }

  /** Stopping the app ends its forwardings: until it stores or retries again, nothing stored changes. */
  lemma {:induction false} StoppedWritesNothing<C>(p: Parties<C>, w: World<C>, events: seq<Event<C>>)
    requires forall e :: e in events ==> !e.Store? && !e.Retry?
    ensures Run(p, React(p, w, Restart), events).stored == w.stored
  {
    IdleWritesNothing(p, React(p, w, Restart), events);
  }

  lemma {:induction false} IdleWritesNothing<C>(p: Parties<C>, w: World<C>, events: seq<Event<C>>)
    requires w.jobs == [] && forall e :: e in events ==> !e.Store? && !e.Retry?
    ensures Run(p, w, events).stored == w.stored
    decreases |events|
  {
    if events != [] {
      assert events[0] in events;
      IdleWritesNothing(p, React(p, w, events[0]), events[1..]);
    }
  }

  // ---------------------------------------------------------------- retrying

  /**
   Retrying after a lost reply is harmless and works: once a request was served, however its answer
   fared, every later one leaves the service's log as it is and is answered with success.
   */
  lemma RetryAfterServed<C(!new)>(p: Parties<C>, servers: map<string, Log<C>>, address: string, item: C,
                                  nowMs: int, diskOk: bool, laterMs: int, laterOk: bool)
    requires JsonLines(p.s.k) && SoundServers(p.s, servers)
    requires Post(p, servers, address, item, nowMs, diskOk).1
    ensures var after := Post(p, servers, address, item, nowMs, diskOk).0;
      Post(p, after, address, item, laterMs, laterOk) == (after, true)
  {
    PostKeeps(p, servers, address, item, nowMs, diskOk);
    var after := Post(p, servers, address, item, nowMs, diskOk).0;
    assert after[address := after[address]] == after;
  }

  /**
   When a request is served it succeeds exactly when the certificate is acceptable, the service does
   not hold another under the same key, and, if it is not there yet, the disk takes it; and then, if it
   was not there, a record of it at this time is added.
   */
  lemma {:induction false} ServedSucceedsExactly<C(!new)>(p: Parties<C>, servers: map<string, Log<C>>, address: string,
                                                          item: C, nowMs: int, diskOk: bool)
    requires JsonLines(p.s.k) && SoundServers(p.s, servers) && address in servers
    ensures var log := servers[address];
      Post(p, servers, address, item, nowMs, diskOk).1 <==>
      && p.accepts(item)
      && (forall r :: r in log.records ==> !Differs(p.s.sch, r, item))
      && (p.s.durable && !diskOk ==> HoldsItem(p.s.sch, log, item))
    ensures var log := servers[address];
      var (after, ok) := Post(p, servers, address, item, nowMs, diskOk);
      ok && !HoldsItem(p.s.sch, log, item) ==>
        address in after && AddsRecord(p.s, log, after[address], item, nowMs)
  {
    var log := servers[address];
    AppendAddsAtMostOne(p.s, log, item, nowMs, diskOk);
    AppendRecords(p.s, log, item, nowMs, diskOk);
  }

  /** One record more, of this item at this time. */
  ghost predicate AddsRecord<C>(s: Setting<C>, before: Log<C>, after: Log<C>, item: C, nowMs: int)
  {
    && |after.records| == |before.records| + 1 && before.records <= after.records
    && RecordedAt(s, before, after.records[|before.records|], item, nowMs)
  }
}
