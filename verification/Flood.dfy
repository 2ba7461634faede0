/**
 Flooding over a local network: every device that stores a frame passes it, one hop older, to all
 its peers but the one it came from.

 The network is a state machine. `hosts`, `peers` and the verifiers are fixed; packets in flight
 are delivered in any order at any clock reading, or lost. `LanNode` is the program's side of one
 delivery.
 */
module Flood {
  import opened Wrappers
  import opened JsonNumbers
  import opened Mesh
  import opened MeshRows
  import opened Numbers
  import opened ContentId

  type Host = string

  datatype Peer = Peer(id: string, host: Host)
  datatype Packet = Packet(src: Host, dst: Host, frame: Frame)

  /** `peers.find(host === from)?.id ?? from`: what the quota is charged to. */
  function PeerId(peers: seq<Peer>, from: Host): string
  {
    if peers == [] then from
    else if peers[0].host == from then peers[0].id
    else PeerId(peers[1..], from)
  }

  /** The relays of a stored frame: to every peer except the host it came from. */
  function Fanout(self: Host, peers: seq<Peer>, from: Host, relay: Frame): seq<Packet>
  {
    if peers == [] then []
    else
      var first := if peers[0].host != from then [Packet(self, peers[0].host, relay)] else [];
      first + Fanout(self, peers[1..], from, relay)
  }

  lemma {:induction false} FanoutExact(self: Host, peers: seq<Peer>, from: Host, relay: Frame)
    ensures |Fanout(self, peers, from, relay)| <= |peers|
    ensures forall p :: p in Fanout(self, peers, from, relay) <==>
      exists q :: q in peers && q.host != from && p == Packet(self, q.host, relay)
  {
    if peers != [] {
      FanoutExact(self, peers[1..], from, relay);
      assert peers == [peers[0]] + peers[1..];
    }
  }

  class LanNode {
    const host: Host
    const router: MeshRouter
    var peers: seq<Peer>

    constructor (host: Host, router: MeshRouter)
      ensures this.host == host && this.router == router && peers == []
    {
      this.host, this.router, peers := host, router, [];
    }

    /** A frame from the wire: received, and if newly stored passed on to everyone else. */
    method OnFrame(frame: Frame, from: Host, nowMs: int) returns (status: Status, sends: seq<Packet>)
      modifies router, router.store
      ensures var r := Receive(router.verify, old(router.store.Contents()), old(router.quotas),
        PeerId(peers, from), frame, nowMs);
        && router.store.Contents() == r.store && router.quotas == r.quotas && status == r.status
        && sends == if r.relay.Some? then Fanout(host, peers, from, r.relay.value) else []
    {
      var relay;
      status, relay := router.ReceiveFrame(PeerId(peers, from), frame, nowMs);
      sends := [];
      if relay.Some? {
        sends := RelayToOthers(from, relay.value);
      }
    }

    method RelayToOthers(from: Host, relay: Frame) returns (sends: seq<Packet>)
      ensures sends == Fanout(host, peers, from, relay)
    {
      sends := [];
      ghost var whole := Fanout(host, peers, from, relay);
      for i := 0 to |peers|
        invariant whole == sends + Fanout(host, peers[i..], from, relay)
      {
        assert peers[i..][1..] == peers[i + 1..];
        if peers[i].host != from {
          sends := sends + [Packet(host, peers[i].host, relay)];
        }
      }
    }
  }

  // ---------------------------------------------------------------- the network

  datatype Net = Net(hosts: set<Host>, peers: Host -> seq<Peer>, verify: Host -> Verifier)

  datatype State = State(stores: map<Host, Store>, quotas: map<Host, Quotas>, flight: multiset<Packet>)

  ghost predicate WellFormed(net: Net, s: State)
  {
    && s.stores.Keys == net.hosts && s.quotas.Keys == net.hosts
    && (forall h, q :: h in net.hosts && q in net.peers(h) ==> q.host in net.hosts)
    && (forall p :: p in s.flight ==> p.dst in net.hosts)
  }

  function Outcome(net: Net, s: State, p: Packet, nowMs: int): Receipt
    requires p.dst in s.stores && p.dst in s.quotas
  {
    Receive(net.verify(p.dst), s.stores[p.dst], s.quotas[p.dst], PeerId(net.peers(p.dst), p.src), p.frame, nowMs)
  }

  function Sends(net: Net, p: Packet, r: Receipt): seq<Packet>
  {
    if r.relay.Some? then Fanout(p.dst, net.peers(p.dst), p.src, r.relay.value) else []
  }

  /** The network after a packet was taken in with this outcome. */
  function Apply(net: Net, s: State, p: Packet, r: Receipt): State
  {
    State(s.stores[p.dst := r.store], s.quotas[p.dst := r.quotas],
          s.flight - multiset{p} + multiset(Sends(net, p, r)))
  }

  function Deliver(net: Net, s: State, p: Packet, nowMs: int): State
    requires p.dst in s.stores && p.dst in s.quotas
  {
    Apply(net, s, p, Outcome(net, s, p, nowMs))
  }

  function Lose(s: State, p: Packet): State
  {
    s.(flight := s.flight - multiset{p})
  }

  ghost predicate Step(net: Net, s: State, s': State)
  {
    exists p :: p in s.flight && p.dst in s.stores && p.dst in s.quotas
      && (s' == Lose(s, p) || exists nowMs :: s' == Deliver(net, s, p, nowMs))
  }

  /** Successive states of a run with no new offer. */
  ghost predicate IsRun(net: Net, run: seq<State>)
  {
    forall i :: 0 <= i < |run| - 1 ==> Step(net, run[i], run[i + 1])
  }

  // ---------------------------------------------------------------- termination

  /** Pairs of a device and an identifier it does not hold yet. */
  ghost function Lacking(net: Net, s: State, ids: set<string>): set<(Host, string)>
    requires s.stores.Keys == net.hosts
  {
    set h, id | h in net.hosts && id in ids && !s.stores[h].HasId(id) :: (h, id)
  }

  ghost predicate Bounded(net: Net, degree: nat)
  {
    forall h :: h in net.hosts ==> |net.peers(h)| <= degree
  }

  ghost predicate Named(s: State, ids: set<string>)
  {
    forall p :: p in s.flight ==> p.frame.contentId in ids
  }

  ghost function Work(net: Net, s: State, ids: set<string>, degree: nat): nat
    requires s.stores.Keys == net.hosts
  {
    |Lacking(net, s, ids)| * degree + |s.flight|
  }

  lemma HasIdExtends(s: Store, s': Store, id: string)
    requires Extends(s, s') && s.HasId(id)
    ensures s'.HasId(id)
  {
    var r :| r in s.List() && r.contentId == id;
    assert r in s'.List();
  }

  /** Every device holds authentic rows, no identifier twice, and has a verifier that keeps it so. */
  ghost predicate NetSound(net: Net, authentic: RowCheck, s: State)
    requires s.stores.Keys == net.hosts
  {
    && IdsDeterminePlane(authentic)
    && forall h :: h in net.hosts ==> Trustworthy(net.verify(h), authentic) && Sound(authentic, s.stores[h])
  }

  /** An outcome `Receive` can have: the device is kept sound, and a stored frame is relayed. */
  ghost predicate Possible(authentic: RowCheck, s: State, p: Packet, r: Receipt)
    requires p.dst in s.stores
  {
    && Kept(authentic, s.stores[p.dst], r, p.frame.contentId)
    && r.relay == if r.status.Stored? then Some(p.frame.(hops := PlusOne(p.frame.hops))) else None
  }

  lemma RelayOf(verify: Verifier, store: Store, quotas: Quotas, peer: string, frame: Frame, nowMs: int)
    ensures var r := Receive(verify, store, quotas, peer, frame, nowMs);
      r.relay == if r.status.Stored? then Some(frame.(hops := PlusOne(frame.hops))) else None
  {}

  lemma OutcomePossible(net: Net, authentic: RowCheck, s: State, p: Packet, nowMs: int)
    requires WellFormed(net, s) && NetSound(net, authentic, s) && p in s.flight
    ensures Possible(authentic, s, p, Outcome(net, s, p, nowMs))
  {
    var verify, store, quotas := net.verify(p.dst), s.stores[p.dst], s.quotas[p.dst];
    ReceiveKeeps(authentic, verify, store, quotas, PeerId(net.peers(p.dst), p.src), p.frame, nowMs);
    RelayOf(verify, store, quotas, PeerId(net.peers(p.dst), p.src), p.frame, nowMs);
  }

  /** A packet that the receiver of `p` sends on. */
  ghost predicate IsRelay(net: Net, p: Packet, r: Receipt, q: Packet)
  {
    && r.relay.Some? && q.src == p.dst && q.frame == r.relay.value && q.dst != p.src
    && exists peer :: peer in net.peers(p.dst) && peer.host == q.dst
  }

  lemma SendsExact(net: Net, p: Packet, r: Receipt)
    ensures |Sends(net, p, r)| <= if r.relay.Some? then |net.peers(p.dst)| else 0
    ensures forall q :: q in Sends(net, p, r) <==> IsRelay(net, p, r, q)
  {
    if r.relay.Some? {
      FanoutExact(p.dst, net.peers(p.dst), p.src, r.relay.value);
      forall q ensures q in Sends(net, p, r) <==> IsRelay(net, p, r, q) {
        if IsRelay(net, p, r, q) {
          var peer :| peer in net.peers(p.dst) && peer.host == q.dst;
          assert q == Packet(p.dst, peer.host, r.relay.value);
        }
      }
    }
  }

  /** What is in flight afterwards was in flight before or is a relay. */
  lemma FlightAfter(net: Net, s: State, p: Packet, r: Receipt)
    requires p in s.flight
    ensures forall q :: q in Apply(net, s, p, r).flight ==> q in s.flight || IsRelay(net, p, r, q)
    ensures |Apply(net, s, p, r).flight| == |s.flight| - 1 + |Sends(net, p, r)|
  {
    SendsExact(net, p, r);
    var f := s.flight - multiset{p};
    var g := multiset(Sends(net, p, r));
    forall q | q in f + g ensures q in s.flight || IsRelay(net, p, r, q) {
      assert q in f || q in Sends(net, p, r);
    }
  }

  lemma ApplyWellFormed(net: Net, s: State, p: Packet, r: Receipt)
    requires WellFormed(net, s) && p in s.flight
    ensures WellFormed(net, Apply(net, s, p, r))
  {
    FlightAfter(net, s, p, r);
  }

  lemma ApplySound(net: Net, authentic: RowCheck, s: State, p: Packet, r: Receipt)
    requires s.stores.Keys == net.hosts && p.dst in net.hosts
    requires NetSound(net, authentic, s) && Sound(authentic, r.store)
    ensures NetSound(net, authentic, Apply(net, s, p, r))
  {}

  lemma LackingShrinks(net: Net, s: State, s': State, ids: set<string>, h: Host, id: string)
    requires s.stores.Keys == net.hosts == s'.stores.Keys && h in net.hosts && id in ids
    requires forall g :: g in net.hosts && g != h ==> s'.stores[g] == s.stores[g]
    requires Extends(s.stores[h], s'.stores[h])
    ensures Lacking(net, s', ids) <= Lacking(net, s, ids)
    ensures !s.stores[h].HasId(id) && s'.stores[h].HasId(id) ==> |Lacking(net, s', ids)| < |Lacking(net, s, ids)|
  {
    var a, b := Lacking(net, s', ids), Lacking(net, s, ids);
    forall g, i | (g, i) in a ensures (g, i) in b {
      if g == h && s.stores[h].HasId(i) {
        HasIdExtends(s.stores[h], s'.stores[h], i);
      }
    }
    if !s.stores[h].HasId(id) && s'.stores[h].HasId(id) {
      assert (h, id) in b && (h, id) !in a;
      SmallerSet(a, b, (h, id));
    }
  }

  lemma SmallerSet<T>(a: set<T>, b: set<T>, x: T)
    requires a <= b && x in b && x !in a
    ensures |a| < |b|
  {
    assert a <= b - {x};
    SubsetSize(a, b - {x});
  }

  lemma {:induction false} SubsetSize<T>(a: set<T>, b: set<T>)
    requires a <= b
    ensures |a| <= |b|
  {
    if a != {} {
      var x :| x in a;
      SubsetSize(a - {x}, b - {x});
    }
  }

  lemma ApplyNamed(net: Net, s: State, p: Packet, r: Receipt, ids: set<string>)
    requires p in s.flight && Named(s, ids)
    requires r.relay.Some? ==> r.relay.value.contentId == p.frame.contentId
    ensures Named(Apply(net, s, p, r), ids)
  {
    FlightAfter(net, s, p, r);
  }

  lemma ApplyDecreases(net: Net, s: State, p: Packet, r: Receipt, ids: set<string>, degree: nat)
    requires WellFormed(net, s) && Bounded(net, degree) && p in s.flight && p.frame.contentId in ids
    requires Extends(s.stores[p.dst], r.store)
    requires r.relay.Some? ==> !s.stores[p.dst].HasId(p.frame.contentId) && r.store.HasId(p.frame.contentId)
    ensures Apply(net, s, p, r).stores.Keys == net.hosts
    ensures Work(net, Apply(net, s, p, r), ids, degree) < Work(net, s, ids, degree)
  {
    var s' := Apply(net, s, p, r);
    SendsExact(net, p, r);
    FlightAfter(net, s, p, r);
    LackingShrinks(net, s, s', ids, p.dst, p.frame.contentId);
    SubsetSize(Lacking(net, s', ids), Lacking(net, s, ids));
    LessWork(|Lacking(net, s, ids)|, |Lacking(net, s', ids)|, |s.flight|, |s'.flight|, degree);
  }

  lemma LessWork(lacking: nat, lacking': nat, flight: nat, flight': nat, degree: nat)
    requires lacking' <= lacking
    requires flight' < flight || (lacking' < lacking && flight' < flight + degree)
    ensures lacking' * degree + flight' < lacking * degree + flight
  {
    if flight' < flight {
      MulMonotone(lacking', lacking, degree);
    } else {
      MulMonotone(lacking' + 1, lacking, degree);
      MulAdd(lacking', 1, degree);
    }
  }

  lemma DeliveryDecreases(net: Net, authentic: RowCheck, s: State, p: Packet, r: Receipt, nowMs: int,
                          ids: set<string>, degree: nat)
    requires WellFormed(net, s) && NetSound(net, authentic, s) && Bounded(net, degree) && Named(s, ids)
    requires p in s.flight && r == Outcome(net, s, p, nowMs)
    ensures WellFormed(net, Apply(net, s, p, r)) && NetSound(net, authentic, Apply(net, s, p, r))
    ensures Named(Apply(net, s, p, r), ids)
    ensures Work(net, Apply(net, s, p, r), ids, degree) < Work(net, s, ids, degree)
  {
    OutcomePossible(net, authentic, s, p, nowMs);
    ApplyWellFormed(net, s, p, r);
    ApplySound(net, authentic, s, p, r);
    ApplyNamed(net, s, p, r, ids);
    ApplyDecreases(net, s, p, r, ids, degree);
  }

  lemma LossDecreases(net: Net, authentic: RowCheck, s: State, p: Packet, ids: set<string>, degree: nat)
    requires WellFormed(net, s) && NetSound(net, authentic, s) && Named(s, ids) && p in s.flight
    ensures var s' := Lose(s, p);
      && WellFormed(net, s') && NetSound(net, authentic, s') && Named(s', ids)
      && Work(net, s', ids, degree) < Work(net, s, ids, degree)
  {
    var s' := Lose(s, p);
    assert |s'.flight| == |s.flight| - 1;
    assert Lacking(net, s', ids) == Lacking(net, s, ids);
  }

  /** Every step of a run, delivery or loss, leaves less to do. */
  lemma StepDecreases(net: Net, authentic: RowCheck, s: State, s': State, ids: set<string>, degree: nat)
    requires WellFormed(net, s) && NetSound(net, authentic, s) && Bounded(net, degree) && Named(s, ids)
    requires Step(net, s, s')
    ensures WellFormed(net, s') && NetSound(net, authentic, s') && Named(s', ids)
    ensures Work(net, s', ids, degree) < Work(net, s, ids, degree)
  {
    var p :| p in s.flight && p.dst in s.stores && p.dst in s.quotas
      && (s' == Lose(s, p) || exists nowMs :: s' == Deliver(net, s, p, nowMs));
    if s' == Lose(s, p) {
      LossDecreases(net, authentic, s, p, ids, degree);
    } else {
      var nowMs :| s' == Deliver(net, s, p, nowMs);
      DeliveryDecreases(net, authentic, s, p, Outcome(net, s, p, nowMs), nowMs, ids, degree);
    }
  }

  /**
   Flooding terminates: however deliveries, losses and clocks are interleaved, a run with no new
   offer has at most `Work` steps, and it leaves every device sound.
   */
  lemma {:induction false} FloodTerminates(net: Net, authentic: RowCheck, run: seq<State>, ids: set<string>,
                                           degree: nat)
    requires run != [] && IsRun(net, run)
    requires WellFormed(net, run[0]) && NetSound(net, authentic, run[0]) && Bounded(net, degree) && Named(run[0], ids)
    ensures |run| - 1 <= Work(net, run[0], ids, degree)
    ensures var last := run[|run| - 1]; WellFormed(net, last) && NetSound(net, authentic, last)
    decreases |run|
  {
    if |run| > 1 {
      assert Step(net, run[0], run[1]);
      StepDecreases(net, authentic, run[0], run[1], ids, degree);
      var rest := run[1..];
      forall i | 0 <= i < |rest| - 1 ensures Step(net, rest[i], rest[i + 1]) {
        assert Step(net, run[i + 1], run[i + 1 + 1]);
      }
      FloodTerminates(net, authentic, rest, ids, degree);
    }
  }

  // ---------------------------------------------------------------- devices that run the program

  /** Devices that all verify with the same checks, each with a certificate cache of its own. */
  ghost predicate Verifies(net: Net, c: Checks, certified: Host -> CertificateCheck)
  {
    forall h :: h in net.hosts ==> net.verify(h) == MeshVerifier(c, certified(h))
  }

  lemma ProgramIsSound(net: Net, c: Checks, certified: Host -> CertificateCheck, s: State)
    requires CollisionFree(c.sha) && Verifies(net, c, certified) && s.stores.Keys == net.hosts
    requires forall h :: h in net.hosts ==> Sound(AuthenticRows(c), s.stores[h])
    ensures NetSound(net, AuthenticRows(c), s)
  {
    AuthenticIdsDeterminePlane(c);
    forall h | h in net.hosts ensures Trustworthy(net.verify(h), AuthenticRows(c)) {
      MeshVerifierTrustworthy(c, certified(h));
    }
  }
}
