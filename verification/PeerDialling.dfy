/** Which address a client dials: everything it knows, narrowest scope first, until one answers. */
module PeerDialling {
  import opened Wrappers
  import opened Sorting
  import opened PeerDirectory

  datatype Source = Cache | Seed

  datatype Candidate = Candidate(address: string, scope: string, source: Source, name: string)

  datatype SeedNode = SeedNode(name: string, address: string, scope: string)

  /** An unknown scope counts as global. */
  function RankOf(scope: string): nat
  {
    match scope
    case "LAN" => 0
    case "ISP_LOCAL" => 1
    case "NATIONAL" => 2
    case "GLOBAL" => 3
    case "MESH" => 4
    case "RETICULUM" => 5
    case _ => 3
  }

  function BySeedScope(): Order<SeedNode>
  {
    (a: SeedNode, b: SeedNode) => RankOf(a.scope) <= RankOf(b.scope)
  }

  predicate NoWider(a: Candidate, b: Candidate)
  {
    RankOf(a.scope) < RankOf(b.scope) || (RankOf(a.scope) == RankOf(b.scope) && (a.source.Cache? || b.source.Seed?))
  }

  function ByScope(): Order<Candidate>
  {
    (a: Candidate, b: Candidate) => NoWider(a, b)
  }

  function OfPeer(p: Peer): seq<Candidate>
  {
    var name := if p.displayName.Some? then p.displayName.value else p.serverId;
    seq(|p.endpoints|, i requires 0 <= i < |p.endpoints| =>
      Candidate(p.endpoints[i].uri, p.endpoints[i].scope, Cache, name))
  }

  function FromCache(peers: seq<Peer>): seq<Candidate>
  {
    if peers == [] then [] else OfPeer(peers[0]) + FromCache(peers[1..])
  }

  function FromSeeds(seeds: seq<SeedNode>): seq<Candidate>
  {
    var sorted := Sort(BySeedScope(), seeds);
    seq(|sorted|, i requires 0 <= i < |sorted| =>
      Candidate(sorted[i].address, sorted[i].scope, Seed, sorted[i].name))
  }

  /** Every address known, as it is met: the cache's, then the seeds. */
  function Known(s: Snapshot, seeds: seq<SeedNode>): seq<Candidate>
  {
    FromCache(s.peers) + FromSeeds(seeds)
  }

  function FirstOnly(cs: seq<Candidate>, seen: set<string>): seq<Candidate>
    decreases |cs|
  {
    if cs == [] then []
    else if cs[0].address in seen then FirstOnly(cs[1..], seen)
    else [cs[0]] + FirstOnly(cs[1..], seen + {cs[0].address})
  }

  function Listed(s: Snapshot, seeds: seq<SeedNode>): seq<Candidate>
  {
    Sort(ByScope(), FirstOnly(Known(s, seeds), {}))
  }

  method CandidateAddresses(s: Snapshot, seeds: seq<SeedNode>) returns (candidates: seq<Candidate>)
    ensures candidates == Listed(s, seeds)
  {
    var known := Known(s, seeds);
    var kept := [];
    var seen: set<string> := {};
    ghost var whole := FirstOnly(known, {});
    for i := 0 to |known|
      invariant kept + FirstOnly(known[i..], seen) == whole
    {
      assert known[i..][1..] == known[i + 1..];
      if known[i].address !in seen {
        seen := seen + {known[i].address};
        kept := kept + [known[i]];
      }
    }
    assert kept == whole;
    candidates := Sort(ByScope(), kept);
  }

  /** The first candidate that answers; a probe that fails is no answer. */
  method Connect(candidates: seq<Candidate>, answers: string -> bool) returns (r: Option<Candidate>)
    ensures r.None? <==> forall c :: c in candidates ==> !answers(c.address)
    ensures r.Some? ==> exists i :: FirstAnswering(candidates, answers, i) && r.value == candidates[i]
  {
    for i := 0 to |candidates|
      invariant forall j :: 0 <= j < i ==> !answers(candidates[j].address)
    {
      if answers(candidates[i].address) {
        assert FirstAnswering(candidates, answers, i);
        return Some(candidates[i]);
      }
    }
    return None;
  }

  predicate FirstAnswering(candidates: seq<Candidate>, answers: string -> bool, i: int)
  {
    && 0 <= i < |candidates| && answers(candidates[i].address)
    && forall j :: 0 <= j < i ==> !answers(candidates[j].address)
  }

  // ---------------------------------------------------------------- what is listed

  predicate FirstWithAddress(cs: seq<Candidate>, i: int)
  {
    0 <= i < |cs| && forall j :: 0 <= j < i ==> cs[j].address != cs[i].address
  }

  lemma {:induction false} FirstOnlyExact(cs: seq<Candidate>, seen: set<string>, c: Candidate)
    ensures c in FirstOnly(cs, seen) <==>
      c.address !in seen && exists i :: FirstWithAddress(cs, i) && cs[i] == c
    decreases |cs|
  {
    if cs != [] {
      var a := cs[0].address;
      if a in seen {
        FirstOnlyExact(cs[1..], seen, c);
      } else {
        FirstOnlyExact(cs[1..], seen + {a}, c);
      }
      FirstInRest(cs, c);
    }
  }

  lemma FirstInRest(cs: seq<Candidate>, c: Candidate)
    requires cs != []
    ensures (exists i :: FirstWithAddress(cs, i) && cs[i] == c) <==>
      cs[0] == c || (cs[0].address != c.address && exists i :: FirstWithAddress(cs[1..], i) && cs[1..][i] == c)
  {
    if i :| FirstWithAddress(cs, i) && cs[i] == c && i > 0 {
      assert FirstWithAddress(cs[1..], i - 1) && cs[1..][i - 1] == c;
    }
    if cs[0] == c {
      assert FirstWithAddress(cs, 0);
    }
    if i :| cs[0].address != c.address && FirstWithAddress(cs[1..], i) && cs[1..][i] == c {
      forall j | 0 <= j < i + 1 ensures cs[j].address != cs[i + 1].address {
        if j > 0 {
          assert cs[j] == cs[1..][j - 1];
        }
      }
      assert FirstWithAddress(cs, i + 1) && cs[i + 1] == c;
    }
  }

  lemma {:induction false} EveryAddressListed(cs: seq<Candidate>, k: nat)
    requires k < |cs|
    ensures exists i :: FirstWithAddress(cs, i) && cs[i].address == cs[k].address
    decreases k
  {
    if !FirstWithAddress(cs, k) {
      var j :| 0 <= j < k && cs[j].address == cs[k].address;
      EveryAddressListed(cs, j);
    }
  }

  lemma ScopeOrder()
    ensures TotalPreorder(ByScope())
  {}

  lemma ListedMembers(s: Snapshot, seeds: seq<SeedNode>)
    ensures Sorted(ByScope(), Listed(s, seeds))
    ensures forall c :: c in Listed(s, seeds) <==> c in FirstOnly(Known(s, seeds), {})
  {
    ScopeOrder();
    SortedPermutation(ByScope(), FirstOnly(Known(s, seeds), {}));
    SameElements(ByScope(), FirstOnly(Known(s, seeds), {}));
  }

  /** What is listed: each known address once, as it was first met, the cache before the seeds. */
  lemma ListedExactly(s: Snapshot, seeds: seq<SeedNode>, c: Candidate)
    ensures c in Listed(s, seeds) <==> exists i :: FirstWithAddress(Known(s, seeds), i) && Known(s, seeds)[i] == c
  {
    ListedMembers(s, seeds);
    FirstOnlyExact(Known(s, seeds), {}, c);
  }

  lemma ListedAreKnown(s: Snapshot, seeds: seq<SeedNode>)
    ensures forall c :: c in Listed(s, seeds) ==> c in Known(s, seeds)
  {
    forall c | c in Listed(s, seeds) ensures c in Known(s, seeds) {
      ListedExactly(s, seeds, c);
    }
  }

  lemma KnownIsListed(s: Snapshot, seeds: seq<SeedNode>, c: Candidate)
    requires c in Known(s, seeds)
    ensures exists d :: d in Listed(s, seeds) && d.address == c.address
  {
    var known := Known(s, seeds);
    var k :| 0 <= k < |known| && known[k] == c;
    EveryAddressListed(known, k);
    var j :| FirstWithAddress(known, j) && known[j].address == c.address;
    ListedExactly(s, seeds, known[j]);
  }

  // ---------------------------------------------------------------- where it comes from

  /** The `j`-th endpoint of the `i`-th peer, under the peer's name or, without one, its identifier. */
  predicate IsEndpoint(s: Snapshot, i: int, j: int, c: Candidate)
  {
    && 0 <= i < |s.peers| && 0 <= j < |s.peers[i].endpoints|
    && c.address == s.peers[i].endpoints[j].uri && c.scope == s.peers[i].endpoints[j].scope
    && c.source == Cache
    && c.name == (if s.peers[i].displayName.Some? then s.peers[i].displayName.value else s.peers[i].serverId)
  }

  predicate IsSeed(seeds: seq<SeedNode>, n: SeedNode, c: Candidate)
  {
    n in seeds && c.address == n.address && c.scope == n.scope && c.source == Seed && c.name == n.name
  }

  predicate EndpointAt(s: Snapshot, i: int, j: int, uri: string)
  {
    0 <= i < |s.peers| && 0 <= j < |s.peers[i].endpoints| && s.peers[i].endpoints[j].uri == uri
  }

  ghost predicate InCache(s: Snapshot, uri: string)
  {
    exists i, j :: EndpointAt(s, i, j, uri)
  }

  predicate InSeeds(seeds: seq<SeedNode>, address: string)
  {
    exists n :: n in seeds && n.address == address
  }

  ghost predicate FirstEndpoint(s: Snapshot, i: int, j: int)
    requires 0 <= i < |s.peers| && 0 <= j < |s.peers[i].endpoints|
  {
    forall i', j' :: EndpointAt(s, i', j', s.peers[i].endpoints[j].uri) ==> i < i' || (i == i' && j <= j')
  }

  lemma {:induction false} CacheHas(s: Snapshot, i: nat, j: nat, c: Candidate)
    requires IsEndpoint(s, i, j, c)
    ensures c in FromCache(s.peers)
    decreases i
  {
    var rest := s.(peers := s.peers[1..]);
    if i == 0 {
      assert OfPeer(s.peers[0])[j] == c;
    } else {
      assert IsEndpoint(rest, i - 1, j, c);
      CacheHas(rest, i - 1, j, c);
    }
  }

  /** The first in the cache with an address is the first endpoint with it, peer by peer. */
  lemma {:induction false} CacheFirst(s: Snapshot, k: nat) returns (i: int, j: int)
    requires FirstWithAddress(FromCache(s.peers), k)
    ensures IsEndpoint(s, i, j, FromCache(s.peers)[k]) && FirstEndpoint(s, i, j)
    decreases |s.peers|
  {
    var all, first := FromCache(s.peers), OfPeer(s.peers[0]);
    var rest := s.(peers := s.peers[1..]);
    var uri := all[k].address;
    assert forall l :: 0 <= l < |first| ==> all[l] == first[l];
    if k < |first| {
      i, j := 0, k;
      forall i', j' | EndpointAt(s, i', j', uri) ensures i < i' || (i == i' && j <= j') {
        assert i' == 0 ==> first[j'].address == uri;
      }
    } else {
      assert FirstWithAddress(FromCache(rest.peers), k - |first|) by {
        forall l | 0 <= l < k - |first| ensures FromCache(rest.peers)[l].address != uri {
          assert all[|first| + l] == FromCache(rest.peers)[l];
        }
      }
      i, j := CacheFirst(rest, k - |first|);
      i := i + 1;
      NotInFirst(s, uri);
      OneFurther(s, rest, i - 1, j, uri);
    }
  }

  lemma NotInFirst(s: Snapshot, uri: string)
    requires s.peers != [] && forall c :: c in OfPeer(s.peers[0]) ==> c.address != uri
    ensures forall j :: !EndpointAt(s, 0, j, uri)
  {
    forall j ensures !EndpointAt(s, 0, j, uri) {
      if 0 <= j < |s.peers[0].endpoints| {
        assert OfPeer(s.peers[0])[j] in OfPeer(s.peers[0]);
      }
    }
  }

  lemma OneFurther(s: Snapshot, rest: Snapshot, i: int, j: int, uri: string)
    requires s.peers != [] && rest.peers == s.peers[1..] && EndpointAt(rest, i, j, uri) && FirstEndpoint(rest, i, j)
    requires forall j :: !EndpointAt(s, 0, j, uri)
    ensures EndpointAt(s, i + 1, j, uri) && FirstEndpoint(s, i + 1, j)
  {
    forall i', j' | EndpointAt(s, i', j', uri) ensures i + 1 < i' || (i + 1 == i' && j <= j') {
      assert i' != 0 ==> EndpointAt(rest, i' - 1, j', uri);
    }
  }

  lemma SeedOrder()
    ensures TotalPreorder(BySeedScope())
  {}

  /** The first of the seeds with an address has the least scope rank among those with it. */
  lemma SeedFirst(seeds: seq<SeedNode>, k: nat) returns (n: SeedNode)
    requires FirstWithAddress(FromSeeds(seeds), k)
    ensures IsSeed(seeds, n, FromSeeds(seeds)[k])
    ensures forall m :: m in seeds && m.address == n.address ==> RankOf(n.scope) <= RankOf(m.scope)
  {
    SeedOrder();
    var sorted := Sort(BySeedScope(), seeds);
    SortedPermutation(BySeedScope(), seeds);
    SameElements(BySeedScope(), seeds);
    n := sorted[k];
    forall m | m in seeds && m.address == n.address ensures RankOf(n.scope) <= RankOf(m.scope) {
      var l :| 0 <= l < |sorted| && sorted[l] == m;
      assert FromSeeds(seeds)[l].address == n.address;
      if l > k {
        assert BySeedScope()(sorted[k], sorted[l]);
      }
    }
  }

  lemma SeedsHave(seeds: seq<SeedNode>, n: SeedNode, c: Candidate)
    requires IsSeed(seeds, n, c)
    ensures c in FromSeeds(seeds)
  {
    SeedOrder();
    var sorted := Sort(BySeedScope(), seeds);
    SortedPermutation(BySeedScope(), seeds);
    SameElements(BySeedScope(), seeds);
    var l :| 0 <= l < |sorted| && sorted[l] == n;
    assert FromSeeds(seeds)[l] == c;
  }

  /** A listed endpoint is the first with its address; a listed seed has an address that no endpoint has. */
  ghost predicate Comes(s: Snapshot, seeds: seq<SeedNode>, c: Candidate)
  {
    match c.source
    case Cache => exists i, j :: IsEndpoint(s, i, j, c) && FirstEndpoint(s, i, j)
    case Seed =>
      && !InCache(s, c.address)
      && exists n :: IsSeed(seeds, n, c)
           && forall m :: m in seeds && m.address == n.address ==> RankOf(n.scope) <= RankOf(m.scope)
  }

  lemma FirstComes(s: Snapshot, seeds: seq<SeedNode>, k: nat)
    requires FirstWithAddress(Known(s, seeds), k)
    ensures Comes(s, seeds, Known(s, seeds)[k])
  {
    var cache, rest, known := FromCache(s.peers), FromSeeds(seeds), Known(s, seeds);
    if k < |cache| {
      assert forall l :: 0 <= l < |cache| ==> known[l] == cache[l];
      assert FirstWithAddress(cache, k);
      var i, j := CacheFirst(s, k);
    } else {
      forall l | 0 <= l < k - |cache| ensures rest[l].address != known[k].address {
        assert known[|cache| + l] == rest[l];
      }
      assert FirstWithAddress(rest, k - |cache|);
      var n := SeedFirst(seeds, k - |cache|);
      assert forall x :: x in cache ==> x.address != known[k].address by {
        assert forall l :: 0 <= l < |cache| ==> known[l] == cache[l];
      }
      if InCache(s, known[k].address) {
        CacheHasAddress(s, known[k].address);
      }
    }
  }

  lemma CacheHasAddress(s: Snapshot, uri: string)
    requires InCache(s, uri)
    ensures exists c :: c in FromCache(s.peers) && c.address == uri
  {
    var i, j :| EndpointAt(s, i, j, uri);
    var p := s.peers[i];
    CacheHas(s, i, j, Candidate(p.endpoints[j].uri, p.endpoints[j].scope, Cache,
                                if p.displayName.Some? then p.displayName.value else p.serverId));
  }

  lemma {:induction false} CacheOnly(s: Snapshot, c: Candidate)
    requires c in FromCache(s.peers)
    ensures InCache(s, c.address)
    decreases |s.peers|
  {
    var first, rest := OfPeer(s.peers[0]), s.(peers := s.peers[1..]);
    if c in first {
      var j :| 0 <= j < |first| && first[j] == c;
      assert EndpointAt(s, 0, j, c.address);
    } else {
      CacheOnly(rest, c);
      var i, j :| EndpointAt(rest, i, j, c.address);
      assert EndpointAt(s, i + 1, j, c.address);
    }
  }

  lemma AddressKnown(s: Snapshot, seeds: seq<SeedNode>, address: string)
    ensures InCache(s, address) || InSeeds(seeds, address) <==>
      exists c :: c in Known(s, seeds) && c.address == address
  {
    if InCache(s, address) {
      CacheHasAddress(s, address);
      var c :| c in FromCache(s.peers) && c.address == address;
      assert c in Known(s, seeds);
    }
    if n :| n in seeds && n.address == address {
      var d := Candidate(n.address, n.scope, Seed, n.name);
      SeedsHave(seeds, n, d);
      assert d in Known(s, seeds);
    }
    if c :| c in Known(s, seeds) && c.address == address {
      if c in FromCache(s.peers) {
        CacheOnly(s, c);
      } else {
        var l :| 0 <= l < |FromSeeds(seeds)| && FromSeeds(seeds)[l] == c;
        SeedOrder();
        SortedPermutation(BySeedScope(), seeds);
        SameElements(BySeedScope(), seeds);
        assert Sort(BySeedScope(), seeds)[l] in seeds;
      }
    }
  }

  /**
   Exactly the addresses of the peers' endpoints and of the seeds are listed; a candidate from the cache is
   the first endpoint with its address, under that peer's name, and a candidate from the seeds one of least
   scope rank whose address no endpoint has.
   */
  lemma ListedComesFrom(s: Snapshot, seeds: seq<SeedNode>, address: string)
    ensures forall c :: c in Listed(s, seeds) ==> Comes(s, seeds, c)
    ensures (exists c :: c in Listed(s, seeds) && c.address == address) <==>
      InCache(s, address) || InSeeds(seeds, address)
  {
    forall c | c in Listed(s, seeds) ensures Comes(s, seeds, c) {
      ListedExactly(s, seeds, c);
      var k :| FirstWithAddress(Known(s, seeds), k) && Known(s, seeds)[k] == c;
      FirstComes(s, seeds, k);
    }
    AddressKnown(s, seeds, address);
    ListedAreKnown(s, seeds);
    if c :| c in Known(s, seeds) && c.address == address {
      KnownIsListed(s, seeds, c);
    }
  }

  /** Dialling the list finds nothing exactly when no peer's endpoint and no seed answers. */
  lemma DialsEverything(s: Snapshot, seeds: seq<SeedNode>, answers: string -> bool)
    ensures (forall c :: c in Listed(s, seeds) ==> !answers(c.address)) <==>
      && (forall p, e :: p in s.peers && e in p.endpoints ==> !answers(e.uri))
      && (forall n :: n in seeds ==> !answers(n.address))
  {
    if forall c :: c in Listed(s, seeds) ==> !answers(c.address) {
      forall p, e | p in s.peers && e in p.endpoints ensures !answers(e.uri) {
        var i :| 0 <= i < |s.peers| && s.peers[i] == p;
        var j :| 0 <= j < |p.endpoints| && p.endpoints[j] == e;
        assert EndpointAt(s, i, j, e.uri);
        ListedComesFrom(s, seeds, e.uri);
      }
      forall n | n in seeds ensures !answers(n.address) {
        ListedComesFrom(s, seeds, n.address);
      }
    }
    forall c | c in Listed(s, seeds) && answers(c.address)
      ensures (exists p, e :: p in s.peers && e in p.endpoints && answers(e.uri))
        || exists n :: n in seeds && answers(n.address)
    {
      ListedComesFrom(s, seeds, c.address);
      if InCache(s, c.address) {
        var i, j :| EndpointAt(s, i, j, c.address);
        assert s.peers[i] in s.peers && s.peers[i].endpoints[j] in s.peers[i].endpoints;
      }
    }
  }

  /** Local network, provider, country, world and whatever is unknown, mesh, Reticulum. */
  lemma ScopesRanked(scope: string)
    ensures RankOf("LAN") < RankOf("ISP_LOCAL") < RankOf("NATIONAL") < RankOf("GLOBAL")
    ensures RankOf("GLOBAL") < RankOf("MESH") < RankOf("RETICULUM")
    ensures scope !in {"LAN", "ISP_LOCAL", "NATIONAL", "MESH", "RETICULUM"} ==> RankOf(scope) == RankOf("GLOBAL")
  {}

  /**
   The first of the list to answer has the least scope rank among the listed addresses that answer,
   and comes from the cache when one from the cache ties.
   */
  lemma DialsNarrowest(s: Snapshot, seeds: seq<SeedNode>, answers: string -> bool, i: int)
    requires FirstAnswering(Listed(s, seeds), answers, i)
    ensures forall d :: d in Listed(s, seeds) && answers(d.address) ==> NoWider(Listed(s, seeds)[i], d)
  {
    var list := Listed(s, seeds);
    ListedMembers(s, seeds);
    forall d | d in list && answers(d.address) ensures NoWider(list[i], d) {
      var k :| 0 <= k < |list| && list[k] == d;
      assert k > i ==> ByScope()(list[i], list[k]);
    }
  }
}
