/** The client's peer directory: merging what nodes report into what is known. */
module PeerDirectory {
  import opened Wrappers
  import opened OrderedMaps

  datatype Endpoint = Endpoint(uri: string, scope: string, asn: Option<int>, ispName: Option<string>)

  datatype Peer = Peer(
    serverId: string, serverKey: string, displayName: Option<string>, endpoints: seq<Endpoint>,
    trust: Option<string>, cachedAtMs: int, source: string)

  datatype Snapshot = Snapshot(peers: seq<Peer>, refreshedAtMs: int)

  type EndpointMap = seq<(string, Endpoint)>

  type PeerMap = seq<(string, Peer)>

  const EMPTY := Snapshot([], 0)

  // ---------------------------------------------------------------- endpoints

  /** The text endpoints are told apart by. */
  function Key(e: Endpoint): string
  {
    e.scope + "|" + e.uri
  }

  function SetEndpoints(m: EndpointMap, es: seq<Endpoint>): EndpointMap
    decreases |es|
  {
    if es == [] then m else SetEndpoints(Upsert(m, Key(es[0]), es[0]), es[1..])
  }

  function Values<K, V>(m: seq<(K, V)>): (vs: seq<V>)
    ensures |vs| == |m| && forall i :: 0 <= i < |vs| ==> vs[i] == m[i].1
  {
    seq(|m|, i requires 0 <= i < |m| => m[i].1)
  }

  function MergedEndpoints(existing: seq<Endpoint>, incoming: seq<Endpoint>): seq<Endpoint>
  {
    Values(SetEndpoints(SetEndpoints([], existing), incoming))
  }

  method SetEach(m: OrderedMap<string, Endpoint>, es: seq<Endpoint>)
    requires m.Valid()
    modifies m
    ensures m.Valid() && m.entries == SetEndpoints(old(m.entries), es)
  {
    ghost var whole := SetEndpoints(m.entries, es);
    for i := 0 to |es|
      invariant m.Valid() && SetEndpoints(m.entries, es[i..]) == whole
    {
      assert es[i..][1..] == es[i + 1..];
      m.Set(Key(es[i]), es[i]);
    }
  }

  method MergeEndpoints(existing: seq<Endpoint>, incoming: seq<Endpoint>) returns (merged: seq<Endpoint>)
    ensures merged == MergedEndpoints(existing, incoming)
  {
    var byKey := new OrderedMap<string, Endpoint>();
    SetEach(byKey, existing);
    SetEach(byKey, incoming);
    merged := Values(byKey.entries);
  }

  // ---------------------------------------------------------------- servers

  /** The record kept after one is reported: the reported fields, old optional ones that it lacks, all addresses. */
  function Combined(existing: Option<Peer>, peer: Peer, nowMs: int): Peer
  {
    var was := if existing.Some? then existing.value.endpoints else [];
    Peer(peer.serverId, peer.serverKey,
         if peer.displayName.None? && existing.Some? then existing.value.displayName else peer.displayName,
         MergedEndpoints(was, peer.endpoints),
         if peer.trust.None? && existing.Some? then existing.value.trust else peer.trust,
         nowMs, peer.source)
  }

  function MergeInto(m: PeerMap, incoming: seq<Peer>, nowMs: int): PeerMap
    decreases |incoming|
  {
    if incoming == [] then m
    else
      var p := incoming[0];
      MergeInto(if p.serverId == "" then m else Upsert(m, p.serverId, Combined(Find(m, p.serverId), p, nowMs)),
                incoming[1..], nowMs)
  }

  function ById(m: PeerMap, peers: seq<Peer>): PeerMap
    decreases |peers|
  {
    if peers == [] then m else ById(Upsert(m, peers[0].serverId, peers[0]), peers[1..])
  }

  function Merged(current: Snapshot, incoming: seq<Peer>, nowMs: int): Snapshot
  {
    Snapshot(Values(MergeInto(ById([], current.peers), incoming, nowMs)), nowMs)
  }

  method IndexById(peers: seq<Peer>) returns (byId: OrderedMap<string, Peer>)
    ensures fresh(byId) && byId.Valid() && byId.entries == ById([], peers)
  {
    byId := new OrderedMap<string, Peer>();
    for i := 0 to |peers|
      invariant fresh(byId) && byId.Valid() && ById(byId.entries, peers[i..]) == ById([], peers)
    {
      assert peers[i..][1..] == peers[i + 1..];
      byId.Set(peers[i].serverId, peers[i]);
    }
  }

  method MergeDirectory(current: Snapshot, incoming: seq<Peer>, nowMs: int) returns (merged: Snapshot)
    ensures merged == Merged(current, incoming, nowMs)
  {
    var byId := IndexById(current.peers);
    ghost var whole := MergeInto(byId.entries, incoming, nowMs);
    for i := 0 to |incoming|
      invariant fresh(byId) && byId.Valid() && MergeInto(byId.entries, incoming[i..], nowMs) == whole
    {
      assert incoming[i..][1..] == incoming[i + 1..];
      var peer := incoming[i];
      if peer.serverId == "" {
        continue;
      }
      var existing := byId.Get(peer.serverId);
      var endpoints := MergeEndpoints(if existing.Some? then existing.value.endpoints else [], peer.endpoints);
      var displayName :=
        if peer.displayName.None? && existing.Some? then existing.value.displayName else peer.displayName;
      var trust := if peer.trust.None? && existing.Some? then existing.value.trust else peer.trust;
      byId.Set(peer.serverId, Peer(peer.serverId, peer.serverKey, displayName, endpoints, trust, nowMs, peer.source));
    }
    merged := Snapshot(Values(byId.entries), nowMs);
  }

  // ---------------------------------------------------------------- what endpoint merging keeps

  /** The last endpoint with a key, if there is one. */
  function LastWith(es: seq<Endpoint>, key: string): (r: Option<Endpoint>)
    ensures r.Some? ==> r.value in es && Key(r.value) == key
    ensures r.None? <==> forall e :: e in es ==> Key(e) != key
  {
    if es == [] then None
    else
      var last := es[|es| - 1];
      if Key(last) == key then Some(last) else LastWith(es[..|es| - 1], key)
  }

  lemma {:induction false} SetLast(m: EndpointMap, es: seq<Endpoint>, e: Endpoint)
    ensures SetEndpoints(m, es + [e]) == Upsert(SetEndpoints(m, es), Key(e), e)
    decreases |es|
  {
    if es == [] {
      assert [e][1..] == [];
    } else {
      assert (es + [e])[0] == es[0] && (es + [e])[1..] == es[1..] + [e];
      SetLast(Upsert(m, Key(es[0]), es[0]), es[1..], e);
    }
  }

  lemma {:induction false} SetAppend(m: EndpointMap, a: seq<Endpoint>, b: seq<Endpoint>)
    ensures SetEndpoints(m, a + b) == SetEndpoints(SetEndpoints(m, a), b)
    decreases |a|
  {
    if a == [] {
      assert a + b == b;
    } else {
      assert (a + b)[0] == a[0] && (a + b)[1..] == a[1..] + b;
      SetAppend(Upsert(m, Key(a[0]), a[0]), a[1..], b);
    }
  }

  /** Each key holds the last endpoint set under it. */
  lemma {:induction false} SetFinds(m: EndpointMap, es: seq<Endpoint>, key: string)
    ensures Find(SetEndpoints(m, es), key) == if LastWith(es, key).Some? then LastWith(es, key) else Find(m, key)
    decreases |es|
  {
    if es != [] {
      var n := |es| - 1;
      assert es == es[..n] + [es[n]];
      SetLast(m, es[..n], es[n]);
      SetFinds(m, es[..n], key);
      UpsertFind(SetEndpoints(m, es[..n]), Key(es[n]), es[n], key);
    }
  }

  /** A map of endpoints, each under its own key once. */
  predicate Keyed(m: EndpointMap)
  {
    Distinct(Keys(m)) && forall x :: x in m ==> x.0 == Key(x.1)
  }

  lemma {:induction false} SetKeepsKeyed(m: EndpointMap, es: seq<Endpoint>)
    requires Keyed(m)
    ensures Keyed(SetEndpoints(m, es))
    decreases |es|
  {
    if es != [] {
      UpsertKeepsKeyed(m, es[0]);
      SetKeepsKeyed(Upsert(m, Key(es[0]), es[0]), es[1..]);
    }
  }

  lemma UpsertKeepsKeyed(m: EndpointMap, e: Endpoint)
    requires Keyed(m)
    ensures Keyed(Upsert(m, Key(e), e))
  {
    UpsertKeys(m, Key(e), e);
    UpsertEntries(m, Key(e), e);
  }

  lemma {:induction false} UpsertEntries<K, V>(m: seq<(K, V)>, key: K, value: V)
    ensures forall x :: x in Upsert(m, key, value) ==> x in m || x == (key, value)
  {
    if m != [] && m[0].0 != key {
      UpsertEntries(m[1..], key, value);
    }
  }

  /** What merging endpoints gives: for every key met, the latest endpoint with it, and nothing else. */
  lemma MergedExactly(existing: seq<Endpoint>, incoming: seq<Endpoint>, e: Endpoint)
    ensures e in MergedEndpoints(existing, incoming) <==> LastWith(existing + incoming, Key(e)) == Some(e)
  {
    var m := SetEndpoints(SetEndpoints([], existing), incoming);
    SetAppend([], existing, incoming);
    SetFinds([], existing + incoming, Key(e));
    SetKeepsKeyed([], existing + incoming);
    if e in Values(m) {
      var i :| 0 <= i < |m| && Values(m)[i] == e;
      FindByKey(m, i);
    }
    if Find(m, Key(e)) == Some(e) {
      var i :| 0 <= i < |m| && m[i] == (Key(e), e);
      assert Values(m)[i] == e;
    }
  }

  /** The address is listed under the scope. */
  predicate HasPair(es: seq<Endpoint>, scope: string, uri: string)
  {
    exists e :: e in es && e.scope == scope && e.uri == uri
  }

  predicate SamePair(e: Endpoint, f: Endpoint)
  {
    e.scope == f.scope && e.uri == f.uri
  }

  predicate KeepsPairs(es: seq<Endpoint>, merged: seq<Endpoint>)
  {
    forall e :: e in es ==> HasPair(merged, e.scope, e.uri)
  }

  predicate KeysApart(es: seq<Endpoint>)
  {
    forall e, f :: e in es && f in es && Key(e) == Key(f) ==> SamePair(e, f)
  }

  lemma OnlyPair(existing: seq<Endpoint>, incoming: seq<Endpoint>, e: Endpoint)
    requires e in existing + incoming
    ensures LastWith(existing + incoming, Key(e)).Some?
    ensures HasPair(MergedEndpoints(existing, incoming), e.scope, e.uri)
      <==> SamePair(LastWith(existing + incoming, Key(e)).value, e)
  {
    var merged := MergedEndpoints(existing, incoming);
    var last := LastWith(existing + incoming, Key(e)).value;
    MergedExactly(existing, incoming, last);
    if HasPair(merged, e.scope, e.uri) {
      var x :| x in merged && x.scope == e.scope && x.uri == e.uri;
      MergedExactly(existing, incoming, x);
    }
  }

  /**
   Merging keeps every (scope, address) pair exactly when no two different pairs give the same key
   text, as ("a|b", "c") and ("a", "b|c") do.
   */
  lemma MergeKeepsPairsExactly(existing: seq<Endpoint>, incoming: seq<Endpoint>)
    ensures KeepsPairs(existing + incoming, MergedEndpoints(existing, incoming)) <==> KeysApart(existing + incoming)
  {
    var all := existing + incoming;
    var merged := MergedEndpoints(existing, incoming);
    if KeysApart(all) {
      forall e | e in all ensures HasPair(merged, e.scope, e.uri) {
        OnlyPair(existing, incoming, e);
      }
    }
    if KeepsPairs(all, merged) {
      forall e, f | e in all && f in all && Key(e) == Key(f) ensures SamePair(e, f) {
        OnlyPair(existing, incoming, e);
        OnlyPair(existing, incoming, f);
      }
    }
  }

  predicate PlainScope(e: Endpoint)
  {
    '|' !in e.scope
  }

  /** Scopes without a bar keep the keys apart. */
  lemma PlainKeysApart(e: Endpoint, f: Endpoint)
    requires PlainScope(e) && PlainScope(f) && Key(e) == Key(f)
    ensures SamePair(e, f)
  {
    BarNotLater(e, f);
    BarNotLater(f, e);
    assert e.scope == Key(e)[..|e.scope|] && f.scope == Key(f)[..|f.scope|];
    assert e.uri == Key(e)[|e.scope| + 1..] && f.uri == Key(f)[|f.scope| + 1..];
  }

  lemma BarNotLater(e: Endpoint, f: Endpoint)
    requires PlainScope(f) && Key(e) == Key(f)
    ensures |f.scope| <= |e.scope|
  {
    assert Key(e)[|e.scope|] == '|';
    assert forall i :: 0 <= i < |f.scope| ==> Key(f)[i] == f.scope[i];
  }

  ghost predicate AllPlain(es: seq<Endpoint>)
  {
    forall e :: e in es ==> PlainScope(e)
  }

  lemma AllPlainApart(es: seq<Endpoint>)
    requires AllPlain(es)
    ensures KeysApart(es)
  {
    forall e, f | e in es && f in es && Key(e) == Key(f) ensures SamePair(e, f) {
      PlainKeysApart(e, f);
    }
  }
}
