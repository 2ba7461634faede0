/** The peer directory over whole histories of merges: what is kept, and that repeating changes nothing. */
module PeerHistory {
  import opened Wrappers
  import opened OrderedMaps
  import opened PeerDirectory

  // ---------------------------------------------------------------- snapshots and maps

  predicate PeerKeyed(m: PeerMap)
  {
    Distinct(Keys(m)) && forall x :: x in m ==> x.0 == x.1.serverId
  }

  lemma UpsertKeepsPeerKeyed(m: PeerMap, p: Peer)
    requires PeerKeyed(m)
    ensures PeerKeyed(Upsert(m, p.serverId, p))
  {
    UpsertKeepsDistinct(m, p.serverId, p);
    UpsertEntries(m, p.serverId, p);
  }

  lemma {:induction false} ByIdKeepsPeerKeyed(m: PeerMap, peers: seq<Peer>)
    requires PeerKeyed(m)
    ensures PeerKeyed(ById(m, peers))
    decreases |peers|
  {
    if peers != [] {
      UpsertKeepsPeerKeyed(m, peers[0]);
      ByIdKeepsPeerKeyed(Upsert(m, peers[0].serverId, peers[0]), peers[1..]);
    }
  }

  function Step(m: PeerMap, p: Peer, nowMs: int): PeerMap
  {
    if p.serverId == "" then m else Upsert(m, p.serverId, Combined(Find(m, p.serverId), p, nowMs))
  }

  lemma {:induction false} MergeKeepsPeerKeyed(m: PeerMap, incoming: seq<Peer>, nowMs: int)
    requires PeerKeyed(m)
    ensures PeerKeyed(MergeInto(m, incoming, nowMs))
    decreases |incoming|
  {
    if incoming != [] {
      var p := incoming[0];
      UpsertKeepsPeerKeyed(m, Combined(Find(m, p.serverId), p, nowMs));
      MergeKeepsPeerKeyed(Step(m, p, nowMs), incoming[1..], nowMs);
    }
  }

  /** Listing a map's records and indexing them again gives the map back. */
  lemma {:induction false} IndexListed(a: PeerMap, b: PeerMap)
    requires PeerKeyed(a + b)
    ensures ById(a, Values(b)) == a + b
    decreases |b|
  {
    if b == [] {
      assert a + b == a;
    } else {
      assert b[0] in a + b;
      NotEarlier(a, b);
      UpsertAbsent(a, b[0].0, b[0].1);
      assert a + b == (a + [b[0]]) + b[1..];
      assert Values(b)[1..] == Values(b[1..]);
      IndexListed(a + [b[0]], b[1..]);
    }
  }

  function MapOf(s: Snapshot): PeerMap
  {
    ById([], s.peers)
  }

  lemma MapOfMerged(s: Snapshot, incoming: seq<Peer>, nowMs: int)
    ensures PeerKeyed(MapOf(s))
    ensures MapOf(Merged(s, incoming, nowMs)) == MergeInto(MapOf(s), incoming, nowMs)
  {
    ByIdKeepsPeerKeyed([], s.peers);
    MergeKeepsPeerKeyed(MapOf(s), incoming, nowMs);
    var m := MergeInto(MapOf(s), incoming, nowMs);
    assert [] + m == m;
    IndexListed([], m);
  }

  // ---------------------------------------------------------------- reports of one server

  lemma {:induction false} EndpointsListed(a: EndpointMap, b: EndpointMap)
    requires Keyed(a + b)
    ensures SetEndpoints(a, Values(b)) == a + b
    decreases |b|
  {
    if b == [] {
      assert a + b == a;
    } else {
      assert b[0] in a + b;
      NotEarlier(a, b);
      UpsertAbsent(a, b[0].0, b[0].1);
      assert a + b == (a + [b[0]]) + b[1..];
      assert Values(b)[1..] == Values(b[1..]);
      EndpointsListed(a + [b[0]], b[1..]);
    }
  }

  /** Merging twice is merging once with both lists. */
  lemma MergedInTurn(a: seq<Endpoint>, b: seq<Endpoint>, c: seq<Endpoint>)
    ensures MergedEndpoints(MergedEndpoints(a, b), c) == MergedEndpoints(a, b + c)
  {
    var m := SetEndpoints(SetEndpoints([], a), b);
    SetKeepsKeyed([], a);
    SetKeepsKeyed(SetEndpoints([], a), b);
    assert [] + m == m;
    EndpointsListed([], m);
    SetAppend(SetEndpoints([], a), b, c);
  }

  /** The reports among these that name the server. */
  function Of(incoming: seq<Peer>, id: string): (r: seq<Peer>)
    ensures forall p :: p in r ==> p in incoming && p.serverId == id
    ensures r == [] <==> forall p :: p in incoming ==> p.serverId != id
  {
    if incoming == [] then []
    else if incoming[0].serverId == id then [incoming[0]] + Of(incoming[1..], id)
    else Of(incoming[1..], id)
  }

  function CombinedAll(existing: Option<Peer>, reports: seq<Peer>, nowMs: int): Option<Peer>
    decreases |reports|
  {
    if reports == [] then existing
    else CombinedAll(Some(Combined(existing, reports[0], nowMs)), reports[1..], nowMs)
  }

  lemma {:induction false} MergeFinds(m: PeerMap, incoming: seq<Peer>, nowMs: int, id: string)
    requires id != ""
    ensures Find(MergeInto(m, incoming, nowMs), id) == CombinedAll(Find(m, id), Of(incoming, id), nowMs)
    decreases |incoming|
  {
    if incoming != [] {
      var p := incoming[0];
      UpsertFind(m, p.serverId, Combined(Find(m, p.serverId), p, nowMs), id);
      MergeFinds(Step(m, p, nowMs), incoming[1..], nowMs, id);
      if p.serverId == id {
        assert Of(incoming, id) == [p] + Of(incoming[1..], id);
        assert Of(incoming, id)[1..] == Of(incoming[1..], id);
      }
    }
  }

  lemma {:induction false} MergeSkipsUnnamed(m: PeerMap, incoming: seq<Peer>, nowMs: int)
    ensures Find(MergeInto(m, incoming, nowMs), "") == Find(m, "")
    decreases |incoming|
  {
    if incoming != [] {
      var p := incoming[0];
      UpsertFind(m, p.serverId, Combined(Find(m, p.serverId), p, nowMs), "");
      MergeSkipsUnnamed(Step(m, p, nowMs), incoming[1..], nowMs);
    }
  }

  function LastName(reports: seq<Peer>, otherwise: Option<string>): Option<string>
  {
    if reports == [] then otherwise
    else
      var last := reports[|reports| - 1];
      if last.displayName.Some? then last.displayName else LastName(reports[..|reports| - 1], otherwise)
  }

  function LastTrust(reports: seq<Peer>, otherwise: Option<string>): Option<string>
  {
    if reports == [] then otherwise
    else
      var last := reports[|reports| - 1];
      if last.trust.Some? then last.trust else LastTrust(reports[..|reports| - 1], otherwise)
  }

  function AllEndpoints(reports: seq<Peer>): seq<Endpoint>
  {
    if reports == [] then []
    else AllEndpoints(reports[..|reports| - 1]) + reports[|reports| - 1].endpoints
  }

  lemma {:induction false} CombinedLast(existing: Option<Peer>, reports: seq<Peer>, p: Peer, nowMs: int)
    ensures CombinedAll(existing, reports + [p], nowMs)
      == Some(Combined(CombinedAll(existing, reports, nowMs), p, nowMs))
    decreases |reports|
  {
    if reports == [] {
      assert [p][1..] == [];
    } else {
      assert (reports + [p])[0] == reports[0] && (reports + [p])[1..] == reports[1..] + [p];
      CombinedLast(Some(Combined(existing, reports[0], nowMs)), reports[1..], p, nowMs);
    }
  }

  function Addresses(existing: Option<Peer>): seq<Endpoint>
  {
    if existing.Some? then existing.value.endpoints else []
  }

  /** What a record becomes after reports of it, field by field. */
  lemma {:induction false} CombinedIs(existing: Option<Peer>, reports: seq<Peer>, nowMs: int)
    requires reports != []
    ensures var r := CombinedAll(existing, reports, nowMs);
      var last := reports[|reports| - 1];
      && r.Some?
      && r.value.serverId == last.serverId && r.value.serverKey == last.serverKey
      && r.value.source == last.source && r.value.cachedAtMs == nowMs
      && r.value.displayName == LastName(reports, if existing.Some? then existing.value.displayName else None)
      && r.value.trust == LastTrust(reports, if existing.Some? then existing.value.trust else None)
      && r.value.endpoints == MergedEndpoints(Addresses(existing), AllEndpoints(reports))
    decreases |reports|
  {
    var n := |reports| - 1;
    var last := reports[n];
    assert reports == reports[..n] + [last];
    CombinedLast(existing, reports[..n], last, nowMs);
    if n > 0 {
      CombinedIs(existing, reports[..n], nowMs);
      MergedInTurn(Addresses(existing), AllEndpoints(reports[..n]), last.endpoints);
    } else {
      assert reports[..n] == [];
      assert AllEndpoints(reports) == last.endpoints;
    }
  }

  // ---------------------------------------------------------------- what one merge keeps

  /** All a server has had after a merge: the addresses it had and those reported. */
  function Had(m: PeerMap, incoming: seq<Peer>, id: string): seq<Endpoint>
  {
    Addresses(Find(m, id)) + AllEndpoints(Of(incoming, id))
  }

  /**
   A merge loses no server and adds exactly the named ones reported. It keeps every (scope, address)
   pair of a server exactly when the server was not reported, or no two different pairs among those it
   had and those reported give the same key text. Records without a name stay as they are.
   */
  lemma MergeKeepsExactly(m: PeerMap, incoming: seq<Peer>, nowMs: int, id: string)
    ensures var after := Find(MergeInto(m, incoming, nowMs), id);
      if id == "" then after == Find(m, id)
      else
        && (after.Some? <==> Find(m, id).Some? || Of(incoming, id) != [])
        && (KeepsPairs(Had(m, incoming, id), Addresses(after)) <==>
            Of(incoming, id) == [] || KeysApart(Had(m, incoming, id)))
  {
    if id == "" {
      MergeSkipsUnnamed(m, incoming, nowMs);
    } else {
      var was, reports := Find(m, id), Of(incoming, id);
      MergeFinds(m, incoming, nowMs, id);
      if reports != [] {
        CombinedIs(was, reports, nowMs);
        MergeKeepsPairsExactly(Addresses(was), AllEndpoints(reports));
      } else {
        assert Had(m, incoming, id) == Addresses(was);
      }
    }
  }

  // ---------------------------------------------------------------- whole histories

  datatype Report = Report(incoming: seq<Peer>, nowMs: int)

  /** The directory after merging reports in turn, from nothing. */
  function After(history: seq<Report>): Snapshot
  {
    if history == [] then EMPTY
    else
      var last := history[|history| - 1];
      Merged(After(history[..|history| - 1]), last.incoming, last.nowMs)
  }

  /** Every report of a server in the history, in order. */
  function ReportsOf(history: seq<Report>, id: string): seq<Peer>
  {
    if history == [] then []
    else ReportsOf(history[..|history| - 1], id) + Of(history[|history| - 1].incoming, id)
  }

  /** Every endpoint ever reported for it. */
  function AllReported(history: seq<Report>, id: string): seq<Endpoint>
  {
    AllEndpoints(ReportsOf(history, id))
  }

  lemma {:induction false} EndpointsAppend(a: seq<Peer>, b: seq<Peer>)
    ensures AllEndpoints(a + b) == AllEndpoints(a) + AllEndpoints(b)
    decreases |b|
  {
    if b == [] {
      assert a + b == a;
    } else {
      var n := |b| - 1;
      assert (a + b)[..|a + b| - 1] == a + b[..n];
      EndpointsAppend(a, b[..n]);
      assert AllEndpoints(a) + AllEndpoints(b) == (AllEndpoints(a) + AllEndpoints(b[..n])) + b[n].endpoints;
    }
  }

  lemma {:induction false} HistoryFinds(history: seq<Report>, id: string)
    requires id != ""
    ensures var r := Find(MapOf(After(history)), id);
      && (r.Some? <==> ReportsOf(history, id) != [])
      && Addresses(r) == MergedEndpoints([], AllReported(history, id))
    decreases |history|
  {
    if history != [] {
      var n := |history| - 1;
      var last, before := history[n], After(history[..n]);
      var reports := Of(last.incoming, id);
      HistoryFinds(history[..n], id);
      MapOfMerged(before, last.incoming, last.nowMs);
      MergeFinds(MapOf(before), last.incoming, last.nowMs, id);
      EndpointsAppend(ReportsOf(history[..n], id), reports);
      if reports != [] {
        CombinedIs(Find(MapOf(before), id), reports, last.nowMs);
        MergedInTurn([], AllReported(history[..n], id), AllEndpoints(reports));
      } else {
        assert ReportsOf(history, id) == ReportsOf(history[..n], id);
      }
    }
  }

  lemma {:induction false} PeersAreMap(history: seq<Report>)
    ensures PeerKeyed(MapOf(After(history)))
    ensures After(history).peers == Values(MapOf(After(history)))
  {
    ByIdKeepsPeerKeyed([], After(history).peers);
    if history != [] {
      var n := |history| - 1;
      MapOfMerged(After(history[..n]), history[n].incoming, history[n].nowMs);
    }
  }

  /** A server is listed once, as the map has it. */
  lemma ListedIs(history: seq<Report>, q: Peer)
    ensures q in After(history).peers <==> Find(MapOf(After(history)), q.serverId) == Some(q)
  {
    var m := MapOf(After(history));
    PeersAreMap(history);
    if q in Values(m) {
      var i :| 0 <= i < |m| && Values(m)[i] == q;
      assert m[i] in m;
      FindByKey(m, i);
    }
    if Find(m, q.serverId) == Some(q) {
      var i :| 0 <= i < |m| && m[i] == (q.serverId, q);
      assert Values(m)[i] == q;
    }
  }

  lemma FoundIsOwn(history: seq<Report>, id: string)
    ensures var r := Find(MapOf(After(history)), id); r.Some? ==> r.value.serverId == id
  {
    PeersAreMap(history);
  }

  lemma ListedAs(history: seq<Report>, id: string)
    ensures forall q :: q in After(history).peers && q.serverId == id <==> Find(MapOf(After(history)), id) == Some(q)
  {
    FoundIsOwn(history, id);
    forall q ensures q in After(history).peers && q.serverId == id <==> Find(MapOf(After(history)), id) == Some(q) {
      ListedIs(history, q);
    }
  }

  /** The directory lists the server with the address under the scope. */
  predicate Lists(s: Snapshot, id: string, scope: string, uri: string)
  {
    exists q :: q in s.peers && q.serverId == id && HasPair(q.endpoints, scope, uri)
  }

  predicate Names(s: Snapshot, id: string)
  {
    exists q :: q in s.peers && q.serverId == id
  }

  /** Every pair ever reported for the server is listed. */
  ghost predicate ListsAll(s: Snapshot, id: string, es: seq<Endpoint>)
  {
    forall e :: e in es ==> Lists(s, id, e.scope, e.uri)
  }

  /** What a directory lists of a server is what the one record of it lists. */
  lemma OneRecord(s: Snapshot, id: string, found: Option<Peer>, es: seq<Endpoint>)
    requires forall q :: q in s.peers && q.serverId == id <==> found == Some(q)
    ensures Names(s, id) <==> found.Some?
    ensures ListsAll(s, id, es) <==> KeepsPairs(es, Addresses(found))
  {
    if found.Some? {
      assert found.value in s.peers;
    }
    forall e | e in es ensures Lists(s, id, e.scope, e.uri) <==> HasPair(Addresses(found), e.scope, e.uri) {
    }
  }

  /**
   Over any history of merges the named servers listed are exactly those ever reported, each with the
   latest endpoint of every key text reported for it and nothing else; and all (scope, address) pairs
   ever reported for a server are listed exactly when no two different ones give the same key text.
   */
  lemma NeverForgets(history: seq<Report>, id: string)
    requires id != ""
    ensures var s, es := After(history), AllReported(history, id);
      && (Names(s, id) <==> ReportsOf(history, id) != [])
      && (forall q, e :: q in s.peers && q.serverId == id ==>
            (e in q.endpoints <==> LastWith(es, Key(e)) == Some(e)))
      && (ListsAll(s, id, es) <==> KeysApart(es))
  {
    var s, es := After(history), AllReported(history, id);
    var found := Find(MapOf(s), id);
    HistoryFinds(history, id);
    ListedAs(history, id);
    OneRecord(s, id, found, es);
    assert [] + es == es;
    MergeKeepsPairsExactly([], es);
    forall e ensures e in Addresses(found) <==> LastWith(es, Key(e)) == Some(e) {
      MergedExactly([], es, e);
    }
  }

  ghost predicate PlainReports(history: seq<Report>, id: string)
  {
    AllPlain(AllReported(history, id))
  }

  /** In particular nothing is forgotten of a server whose reported scopes have no bar. */
  lemma PlainNeverForgets(history: seq<Report>, id: string)
    requires id != "" && PlainReports(history, id)
    ensures ListsAll(After(history), id, AllReported(history, id))
  {
    AllPlainApart(AllReported(history, id));
    NeverForgets(history, id);
  }

  // ---------------------------------------------------------------- repeating a merge

  lemma {:induction false} SetKnownKeys(m: EndpointMap, es: seq<Endpoint>)
    requires forall e :: e in es ==> Key(e) in Keys(m)
    ensures Keys(SetEndpoints(m, es)) == Keys(m)
    decreases |es|
  {
    if es != [] {
      UpsertKeys(m, Key(es[0]), es[0]);
      SetKnownKeys(Upsert(m, Key(es[0]), es[0]), es[1..]);
    }
  }

  lemma SetTwice(m: EndpointMap, es: seq<Endpoint>)
    requires Keyed(m)
    ensures SetEndpoints(SetEndpoints(m, es), es) == SetEndpoints(m, es)
  {
    var once := SetEndpoints(m, es);
    var twice := SetEndpoints(once, es);
    SetKeepsKeyed(m, es);
    forall e | e in es ensures Key(e) in Keys(once) {
      SetFinds(m, es, Key(e));
      FoundIsKey(once, Key(e));
    }
    SetKnownKeys(once, es);
    forall i | 0 <= i < |twice| ensures Find(twice, twice[i].0) == Find(once, twice[i].0) {
      SetFinds(m, es, twice[i].0);
      SetFinds(once, es, twice[i].0);
    }
    SameMap(twice, once);
  }

  lemma MergedTwice(a: seq<Endpoint>, b: seq<Endpoint>)
    ensures MergedEndpoints(MergedEndpoints(a, b), b) == MergedEndpoints(a, b)
  {
    MergedInTurn(a, b, b);
    SetAppend(SetEndpoints([], a), b, b);
    SetKeepsKeyed([], a);
    SetTwice(SetEndpoints([], a), b);
  }

  lemma {:induction false} LastOtherwise(reports: seq<Peer>, a: Option<string>)
    ensures LastName(reports, LastName(reports, a)) == LastName(reports, a)
    ensures LastTrust(reports, LastTrust(reports, a)) == LastTrust(reports, a)
  {
    if reports != [] {
      LastNameOf(reports[..|reports| - 1], a);
      LastNameOf(reports, a);
      LastNameOf(reports, LastName(reports, a));
      LastNameOf(reports, LastTrust(reports, a));
    }
  }

  /** Either the reports settle the field, or what was there stays. */
  lemma {:induction false} LastNameOf(reports: seq<Peer>, a: Option<string>)
    ensures forall b :: LastName(reports, a) == a || LastName(reports, b) == LastName(reports, a)
    ensures forall b :: LastTrust(reports, a) == a || LastTrust(reports, b) == LastTrust(reports, a)
    decreases |reports|
  {
    if reports != [] {
      LastNameOf(reports[..|reports| - 1], a);
    }
  }

  lemma CombinedTwice(existing: Option<Peer>, reports: seq<Peer>, nowMs: int)
    ensures CombinedAll(CombinedAll(existing, reports, nowMs), reports, nowMs) == CombinedAll(existing, reports, nowMs)
  {
    if reports != [] {
      var once := CombinedAll(existing, reports, nowMs);
      CombinedIs(existing, reports, nowMs);
      CombinedIs(once, reports, nowMs);
      LastOtherwise(reports, if existing.Some? then existing.value.displayName else None);
      LastOtherwise(reports, if existing.Some? then existing.value.trust else None);
      MergedTwice(Addresses(existing), AllEndpoints(reports));
    }
  }

  lemma {:induction false} MergeKnownKeys(m: PeerMap, incoming: seq<Peer>, nowMs: int)
    requires forall p :: p in incoming && p.serverId != "" ==> p.serverId in Keys(m)
    ensures Keys(MergeInto(m, incoming, nowMs)) == Keys(m)
    decreases |incoming|
  {
    if incoming != [] {
      var p := incoming[0];
      UpsertKeys(m, p.serverId, Combined(Find(m, p.serverId), p, nowMs));
      MergeKnownKeys(Step(m, p, nowMs), incoming[1..], nowMs);
    }
  }

  lemma MergeIntoTwice(m: PeerMap, incoming: seq<Peer>, nowMs: int)
    requires PeerKeyed(m)
    ensures MergeInto(MergeInto(m, incoming, nowMs), incoming, nowMs) == MergeInto(m, incoming, nowMs)
  {
    var once := MergeInto(m, incoming, nowMs);
    var twice := MergeInto(once, incoming, nowMs);
    MergeKeepsPeerKeyed(m, incoming, nowMs);
    forall p | p in incoming && p.serverId != "" ensures p.serverId in Keys(once) {
      MergeFinds(m, incoming, nowMs, p.serverId);
      CombinedIs(Find(m, p.serverId), Of(incoming, p.serverId), nowMs);
      FoundIsKey(once, p.serverId);
    }
    MergeKnownKeys(once, incoming, nowMs);
    forall i | 0 <= i < |twice| ensures Find(twice, twice[i].0) == Find(once, twice[i].0) {
      var id := twice[i].0;
      if id == "" {
        MergeSkipsUnnamed(once, incoming, nowMs);
      } else {
        MergeFinds(m, incoming, nowMs, id);
        MergeFinds(once, incoming, nowMs, id);
        CombinedTwice(Find(m, id), Of(incoming, id), nowMs);
      }
    }
    SameMap(twice, once);
  }

  /** Merging the same report again at the same time changes nothing, whatever the directory held. */
  lemma MergeIdempotent(s: Snapshot, incoming: seq<Peer>, nowMs: int)
    ensures Merged(Merged(s, incoming, nowMs), incoming, nowMs) == Merged(s, incoming, nowMs)
  {
    MapOfMerged(s, incoming, nowMs);
    MergeIntoTwice(MapOf(s), incoming, nowMs);
  }
}
