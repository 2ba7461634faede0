/**
 Nine devices whose hops run out: a ring of three, and a line of six more from one of the three. What
 the first device offers goes round the ring, comes back to it and only then down the line, so that
 the last device is offered it with eight hops and refuses it. Nothing is lost and the network comes
 to rest, the last device without it, although it is six links away.

 The run is followed on a small picture of the network: who holds the identifier, and the packets in
 flight as a stack of which the last is delivered next.
 */
module FloodHops {
  import opened Wrappers
  import opened Wire
  import opened Canonical
  import opened JsonNumbers
  import opened Mesh
  import opened MeshRows
  import opened Flood
  import opened FloodReach
  import opened FloodCoverage
  import opened ContentId
  import Base64Url
  import Quota

  function P(h: Host): Peer
  {
    Peer(h, h)
  }

  /** The ring 0-1-2 and the line 0-3-4-5-6-7-8, every link known at both ends. */
  ghost predicate RingAndLine(net: Net, d: seq<Host>)
  {
    && |d| == 9 && (forall i, j :: 0 <= i < j < 9 ==> d[i] != d[j])
    && net.hosts == (set h | h in d)
    && net.peers(d[0]) == [P(d[2]), P(d[3]), P(d[1])]
    && net.peers(d[1]) == [P(d[0]), P(d[2])] && net.peers(d[2]) == [P(d[1]), P(d[0])]
    && net.peers(d[3]) == [P(d[0]), P(d[4])] && net.peers(d[4]) == [P(d[3]), P(d[5])]
    && net.peers(d[5]) == [P(d[4]), P(d[6])] && net.peers(d[6]) == [P(d[5]), P(d[7])]
    && net.peers(d[7]) == [P(d[6]), P(d[8])] && net.peers(d[8]) == [P(d[7])]
  }

  const STEPS := 12

  /** A frame that every device takes in at this time, twelve times over. */
  ghost predicate Welcome(net: Net, frame: Frame, wire: seq<byte>, plane: int, nowMs: int)
  {
    && Base64Url.Decode(frame.envelope) == Some(wire) && !Stale(frame, nowMs)
    && STEPS * |wire| <= Quota.MAX_BYTES
    && forall h :: h in net.hosts ==> TakenAs(net.verify(h)(wire, frame.contentId), plane)
  }

  ghost predicate TakenAs(verified: Result<Envelope, Reason>, plane: int)
  {
    verified.Ok? && verified.value.plane == plane
  }

  // ---------------------------------------------------------------- the picture

  datatype Picture = Picture(holders: set<Host>, stack: seq<Packet>)

  function Top(a: Picture): Packet
    requires a.stack != []
  {
    a.stack[|a.stack| - 1]
  }

  /** The last packet is delivered. */
  function Pop(net: Net, a: Picture): Picture
    requires a.stack != []
  {
    var p, rest := Top(a), a.stack[..|a.stack| - 1];
    if Spent(p.frame.hops) || p.dst in a.holders then a.(stack := rest)
    else
      Picture(a.holders + {p.dst},
              rest + Fanout(p.dst, net.peers(p.dst), p.src, p.frame.(hops := PlusOne(p.frame.hops))))
  }

  /** A packet with the frame, but for the hops. */
  predicate Carries(p: Packet, frame: Frame)
  {
    p.frame == frame.(hops := p.frame.hops) && !Negative(p.frame.hops)
  }

  ghost predicate StoreShows(s: Store, held: bool, id: string, plane: int)
  {
    (s.HasId(id) <==> held) && (held ==> ContainsId(s.Plane(plane), id))
  }

  ghost predicate LightlyCharged(quotas: Quotas, k: nat, size: nat)
  {
    forall peer :: peer in quotas ==> quotas[peer].envelopes <= k && quotas[peer].bytes <= k * size
  }

  /** The picture is of this world, `k` deliveries after the offer. */
  ghost predicate Shows(net: Net, frame: Frame, plane: int, size: nat, w: World, a: Picture, k: nat)
  {
    && WellFormed(net, w.net)
    && w.net.flight == multiset(a.stack) && (forall p :: p in a.stack ==> Carries(p, frame))
    && (forall h :: h in net.hosts ==> StoreShows(w.net.stores[h], h in a.holders, frame.contentId, plane))
    && (forall h :: h in net.hosts ==> LightlyCharged(w.net.quotas[h], k, size))
    && w.past.lost == {}
    && (forall h, id, reason :: (h, id, reason) in w.past.refused ==> reason == HopLimit)
  }

  lemma LightSpend(quotas: Quotas, peer: string, k: nat, size: nat, nowMs: int)
    requires LightlyCharged(quotas, k, size) && k < STEPS && STEPS * size <= Quota.MAX_BYTES
    ensures var s := Quota.Spend(WindowOf(quotas, peer), size, nowMs);
      s.Some? && LightlyCharged(quotas[peer := s.value], k + 1, size)
  {
    assert (k + 1) * size == k * size + size;
    assert (k + 1) * size + (STEPS - k - 1) * size == STEPS * size;
  }

  /** What a delivery does to the device. */
  lemma Received(verify: Verifier, store: Store, held: bool, quotas: Quotas, peer: string, frame: Frame, nowMs: int,
                 wire: seq<byte>, plane: int, k: nat)
    requires Base64Url.Decode(frame.envelope) == Some(wire) && !Negative(frame.hops) && !Stale(frame, nowMs)
    requires TakenAs(verify(wire, frame.contentId), plane) && STEPS * |wire| <= Quota.MAX_BYTES
    requires StoreShows(store, held, frame.contentId, plane) && LightlyCharged(quotas, k, |wire|) && k < STEPS
    ensures var r := Receive(verify, store, quotas, peer, frame, nowMs);
      && LightlyCharged(r.quotas, k + 1, |wire|)
      && StoreShows(r.store, held || !Spent(frame.hops), frame.contentId, plane)
      && (r.status.Rejected? ==> r.status.reason == HopLimit)
      && r.relay == (if held || Spent(frame.hops) then None else Some(frame.(hops := PlusOne(frame.hops))))
  {
    LightSpend(quotas, peer, k, |wire|, nowMs);
    var row := RowOf(frame, verify(wire, frame.contentId).value, nowMs);
    PutRows(store, row);
    if Spent(frame.hops) {
      assert k * |wire| <= (k + 1) * |wire|;
    } else if !held {
      assert !ContainsId(store.Plane(plane), frame.contentId) by {
        assert forall q :: q in store.Plane(plane) ==> q in store.List();
      }
      var rows := Put(store, row).0.Plane(plane);
      assert rows[|rows| - 1] == row;
    }
  }

  lemma FlightShows(net: Net, s: State, p: Packet, r: Receipt, rest: seq<Packet>, stack: seq<Packet>)
    requires stack == rest + [p] && s.flight == multiset(stack)
    ensures Apply(net, s, p, r).flight == multiset(rest + Sends(net, p, r))
  {
    assert multiset(stack) == multiset(rest) + multiset{p};
    assert multiset(stack) - multiset{p} == multiset(rest);
  }

  lemma DeliveryIsStep(net: Net, w: World, p: Packet, nowMs: int)
    requires WellFormed(net, w.net) && p in w.net.flight
    ensures p.dst in w.net.stores && p.dst in w.net.quotas
    ensures WorldStep(net, w, DeliverIn(net, w, p, nowMs))
  {}

  lemma TopReceived(net: Net, frame: Frame, wire: seq<byte>, plane: int, nowMs: int, w: World, a: Picture, k: nat)
    returns (r: Receipt)
    requires Welcome(net, frame, wire, plane, nowMs) && k < STEPS && a.stack != []
    requires Shows(net, frame, plane, |wire|, w, a, k)
    ensures Top(a) in w.net.flight && Top(a).dst in net.hosts && Carries(Top(a), frame)
    ensures DeliverIn(net, w, Top(a), nowMs) == ApplyIn(net, w, Top(a), r)
    ensures var p := Top(a);
      && LightlyCharged(r.quotas, k + 1, |wire|)
      && StoreShows(r.store, p.dst in a.holders || !Spent(p.frame.hops), frame.contentId, plane)
      && (r.status.Rejected? ==> r.status.reason == HopLimit)
      && r.relay == (if p.dst in a.holders || Spent(p.frame.hops) then None
                     else Some(p.frame.(hops := PlusOne(p.frame.hops))))
  {
    var p := Top(a);
    assert p in a.stack;
    r := Outcome(net, w.net, p, nowMs);
    var store, quotas, peer := w.net.stores[p.dst], w.net.quotas[p.dst], PeerId(net.peers(p.dst), p.src);
    assert TakenAs(net.verify(p.dst)(wire, frame.contentId), plane);
    Received(net.verify(p.dst), store, p.dst in a.holders, quotas, peer, p.frame, nowMs, wire, plane, k);
  }

  lemma PopShows(net: Net, frame: Frame, wire: seq<byte>, plane: int, nowMs: int, w: World, a: Picture, k: nat)
    requires Welcome(net, frame, wire, plane, nowMs) && k < STEPS && a.stack != []
    requires Shows(net, frame, plane, |wire|, w, a, k)
    ensures Top(a).dst in w.net.stores && Top(a).dst in w.net.quotas
    ensures WorldStep(net, w, DeliverIn(net, w, Top(a), nowMs))
    ensures Shows(net, frame, plane, |wire|, DeliverIn(net, w, Top(a), nowMs), Pop(net, a), k + 1)
  {
    var p, rest := Top(a), a.stack[..|a.stack| - 1];
    assert a.stack == rest + [p];
    var r := TopReceived(net, frame, wire, plane, nowMs, w, a, k);
    DeliveryIsStep(net, w, p, nowMs);
    ApplyShows(net, frame, plane, |wire|, w, a, k, p, r, rest);
  }

  lemma ApplyShows(net: Net, frame: Frame, plane: int, size: nat, w: World, a: Picture, k: nat, p: Packet, r: Receipt,
                   rest: seq<Packet>)
    requires Shows(net, frame, plane, size, w, a, k) && a.stack == rest + [p] && p in w.net.flight && Carries(p, frame)
    requires LightlyCharged(r.quotas, k + 1, size)
    requires StoreShows(r.store, p.dst in a.holders || !Spent(p.frame.hops), frame.contentId, plane)
    requires r.status.Rejected? ==> r.status.reason == HopLimit
    requires r.relay == if p.dst in a.holders || Spent(p.frame.hops) then None
                        else Some(p.frame.(hops := PlusOne(p.frame.hops)))
    ensures Shows(net, frame, plane, size, ApplyIn(net, w, p, r), Pop(net, a), k + 1)
  {
    assert a.stack[..|a.stack| - 1] == rest;
    FlightShows(net, w.net, p, r, rest, a.stack);
    ApplyWellFormed(net, w.net, p, r);
    SendsCarry(net, frame, p, r);
    RestShows(net, frame, plane, size, w, a, k, p, r);
    assert Pop(net, a).stack == rest + Sends(net, p, r);
    forall q | q in Pop(net, a).stack ensures Carries(q, frame) {
      assert q in rest ==> q in a.stack;
    }
  }

  lemma SendsCarry(net: Net, frame: Frame, p: Packet, r: Receipt)
    requires Carries(p, frame)
    requires r.relay.Some? ==> r.relay.value == p.frame.(hops := PlusOne(p.frame.hops))
    ensures forall q :: q in Sends(net, p, r) ==> Carries(q, frame)
  {
    SendsExact(net, p, r);
  }

  /** The other devices are as they were. */
  lemma RestShows(net: Net, frame: Frame, plane: int, size: nat, w: World, a: Picture, k: nat, p: Packet, r: Receipt)
    requires Shows(net, frame, plane, size, w, a, k) && p.dst in net.hosts && Carries(p, frame)
    requires a.stack != [] && p == Top(a)
    requires LightlyCharged(r.quotas, k + 1, size)
    requires StoreShows(r.store, p.dst in a.holders || !Spent(p.frame.hops), frame.contentId, plane)
    requires r.status.Rejected? ==> r.status.reason == HopLimit
    ensures var w', a' := ApplyIn(net, w, p, r), Pop(net, a);
      && (forall h :: h in net.hosts ==> StoreShows(w'.net.stores[h], h in a'.holders, frame.contentId, plane))
      && (forall h :: h in net.hosts ==> LightlyCharged(w'.net.quotas[h], k + 1, size))
      && w'.past.lost == {}
      && (forall h, id, reason :: (h, id, reason) in w'.past.refused ==> reason == HopLimit)
  {
    var w', a' := ApplyIn(net, w, p, r), Pop(net, a);
    assert k * size <= (k + 1) * size;
    forall h | h in net.hosts ensures StoreShows(w'.net.stores[h], h in a'.holders, frame.contentId, plane) {
      if h != p.dst {
        assert w'.net.stores[h] == w.net.stores[h] && (h in a'.holders <==> h in a.holders);
      }
    }
  }

  // ---------------------------------------------------------------- following the run

  function Popped(net: Net, a: Picture, n: nat): Picture
    decreases n
  {
    if n == 0 || a.stack == [] then a else Popped(net, Pop(net, a), n - 1)
  }

  lemma {:induction false} PoppedAgain(net: Net, a: Picture, m: nat, n: nat)
    ensures Popped(net, a, m + n) == Popped(net, Popped(net, a, m), n)
    decreases m
  {
    if m > 0 && a.stack != [] {
      PoppedAgain(net, Pop(net, a), m - 1, n);
    }
  }

  type Stepping = (World, World) -> bool

  type Likeness = (World, int) -> bool

  ghost predicate Chain(step: Stepping, run: seq<World>)
  {
    forall i :: 0 <= i < |run| - 1 ==> step(run[i], run[i + 1])
  }

  lemma ChainFirst(step: Stepping, w: World, rest: seq<World>)
    requires rest != [] && Chain(step, rest) && step(w, rest[0])
    ensures Chain(step, [w] + rest)
  {
    var run := [w] + rest;
    forall i | 0 <= i < |run| - 1 ensures step(run[i], run[i + 1]) {
      if i > 0 {
        assert step(rest[i - 1], rest[i - 1 + 1]);
      }
    }
  }

  ghost predicate CanStep(step: Stepping, like: Likeness, w: World, k: int)
  {
    exists next :: step(w, next) && like(next, k)
  }

  /** From a world like the `k`-th picture a step leads to one like the next, if it is not like that already. */
  ghost predicate Advances(step: Stepping, like: Likeness, n: nat)
  {
    forall w: World, k: int :: 0 <= k < n && like(w, k) ==> CanStep(step, like, w, k + 1) || like(w, k + 1)
  }

  lemma {:induction false} Follow(step: Stepping, like: Likeness, w: World, k: nat, n: nat) returns (run: seq<World>)
    requires Advances(step, like, n) && like(w, k) && k <= n
    ensures run != [] && run[0] == w && Chain(step, run) && like(run[|run| - 1], n)
    decreases n - k
  {
    if k == n {
      run := [w];
    } else if CanStep(step, like, w, k + 1) {
      var next :| step(w, next) && like(next, k + 1);
      var rest := Follow(step, like, next, k + 1, n);
      run := [w] + rest;
      ChainFirst(step, w, rest);
    } else {
      run := Follow(step, like, w, k + 1, n);
    }
  }

  lemma ShowsLater(net: Net, frame: Frame, plane: int, size: nat, w: World, a: Picture, k: nat)
    requires Shows(net, frame, plane, size, w, a, k)
    ensures Shows(net, frame, plane, size, w, a, k + 1)
  {
    assert k * size <= (k + 1) * size;
  }

  lemma PopOnce(net: Net, a: Picture, k: nat)
    ensures var b := Popped(net, a, k); Popped(net, a, k + 1) == if b.stack == [] then b else Pop(net, b)
  {
    PoppedAgain(net, a, k, 1);
    var b := Popped(net, a, k);
    if b.stack != [] {
      assert Popped(net, b, 1) == Popped(net, Pop(net, b), 0);
    }
  }

  /** Delivering the last packet again and again. */
  lemma PopsShow(net: Net, frame: Frame, wire: seq<byte>, plane: int, nowMs: int, w: World, a: Picture)
    returns (run: seq<World>)
    requires Welcome(net, frame, wire, plane, nowMs)
    requires Shows(net, frame, plane, |wire|, w, a, 0)
    ensures run != [] && run[0] == w && IsWorldRun(net, run)
    ensures Shows(net, frame, plane, |wire|, run[|run| - 1], Popped(net, a, STEPS), STEPS)
  {
    var step: Stepping := (x, y) => WorldStep(net, x, y);
    var like: Likeness := (x, i) => i >= 0 && Shows(net, frame, plane, |wire|, x, Popped(net, a, i), i);
    forall x: World, i: int | 0 <= i < STEPS && like(x, i)
      ensures CanStep(step, like, x, i + 1) || like(x, i + 1)
    {
      var b := Popped(net, a, i);
      PopOnce(net, a, i);
      if b.stack == [] {
        ShowsLater(net, frame, plane, |wire|, x, b, i);
      } else {
        PopShows(net, frame, wire, plane, nowMs, x, b, i);
        var next := DeliverIn(net, x, Top(b), nowMs);
        assert step(x, next) && like(next, i + 1);
      }
    }
    run := Follow(step, like, w, 0, STEPS);
    forall i | 0 <= i < |run| - 1 ensures WorldStep(net, run[i], run[i + 1]) {
      assert step(run[i], run[i + 1]);
    }
  }

  function Leg(d: seq<Host>, frame: Frame, i: nat, j: nat, hops: int): Packet
    requires i < |d| && j < |d|
  {
    Packet(d[i], d[j], frame.(hops := Whole(hops)))
  }

  /** The three packets of the offer. */
  function Offered(d: seq<Host>, frame: Frame): (stack: seq<Packet>)
    requires |d| == 9
  {
    [Leg(d, frame, 0, 2, 0), Leg(d, frame, 0, 3, 0)] + [Leg(d, frame, 0, 1, 0)]
  }

  /** One delivery to a device that has not got the identifier: it passes it on to the given packets. */
  lemma Spreads(net: Net, d: seq<Host>, frame: Frame, a: Picture, rest: seq<Packet>, i: nat, j: nat, hops: nat,
                sends: seq<Packet>)
    requires |d| == 9 && i < 9 && j < 9 && hops < 8
    requires a.stack == rest + [Leg(d, frame, i, j, hops)] && d[j] !in a.holders
    requires Fanout(d[j], net.peers(d[j]), d[i], frame.(hops := Whole(hops + 1))) == sends
    ensures Pop(net, a) == Picture(a.holders + {d[j]}, rest + sends)
  {
    var p := Leg(d, frame, i, j, hops);
    assert p.frame.(hops := PlusOne(p.frame.hops)) == frame.(hops := Whole(hops + 1));
    assert a.stack[..|a.stack| - 1] == rest;
  }

  /** One delivery that leads to nothing: the hops are used up, or the device has the identifier. */
  lemma Ends(net: Net, d: seq<Host>, frame: Frame, a: Picture, rest: seq<Packet>, i: nat, j: nat, hops: nat)
    requires |d| == 9 && i < 9 && j < 9
    requires a.stack == rest + [Leg(d, frame, i, j, hops)] && (d[j] in a.holders || hops >= 8)
    ensures Pop(net, a) == Picture(a.holders, rest)
  {
    assert a.stack[..|a.stack| - 1] == rest;
  }

  /** Down the line a device passes the frame on to the next one only. */
  lemma LineFanout(net: Net, d: seq<Host>, frame: Frame, j: nat, hops: nat)
    requires RingAndLine(net, d) && 3 <= j <= 7
    ensures Fanout(d[j], net.peers(d[j]), d[if j == 3 then 0 else j - 1], frame.(hops := Whole(hops)))
      == [Leg(d, frame, j, j + 1, hops)]
  {
    var from, next := d[if j == 3 then 0 else j - 1], d[j + 1];
    TwoPeers(d[j], from, next, frame.(hops := Whole(hops)));
    assert net.peers(d[j]) == [P(from), P(next)];
  }

  lemma FanoutFirst(self: Host, q: Peer, rest: seq<Peer>, from: Host, relay: Frame)
    ensures Fanout(self, [q] + rest, from, relay)
      == (if q.host != from then [Packet(self, q.host, relay)] else []) + Fanout(self, rest, from, relay)
  {
    assert ([q] + rest)[1..] == rest;
  }

  lemma FanoutOne(self: Host, q: Peer, from: Host, relay: Frame)
    ensures Fanout(self, [q], from, relay) == if q.host != from then [Packet(self, q.host, relay)] else []
  {
    assert [q] == [q] + [];
    FanoutFirst(self, q, [], from, relay);
  }

  lemma TwoPeers(self: Host, from: Host, next: Host, relay: Frame)
    requires from != next
    ensures Fanout(self, [P(from), P(next)], from, relay) == [Packet(self, next, relay)]
    ensures Fanout(self, [P(next), P(from)], from, relay) == [Packet(self, next, relay)]
  {
    assert [P(from), P(next)] == [P(from)] + [P(next)] && [P(next), P(from)] == [P(next)] + [P(from)];
    FanoutFirst(self, P(from), [P(next)], from, relay);
    FanoutFirst(self, P(next), [P(from)], from, relay);
    FanoutOne(self, P(next), from, relay);
    FanoutOne(self, P(from), from, relay);
  }

  lemma ThreePeers(self: Host, from: Host, x: Host, y: Host, relay: Frame)
    requires from != x && from != y
    ensures Fanout(self, [P(from), P(x), P(y)], from, relay) == [Packet(self, x, relay), Packet(self, y, relay)]
  {
    assert [P(from), P(x), P(y)] == [P(from)] + ([P(x)] + [P(y)]);
    FanoutFirst(self, P(from), [P(x)] + [P(y)], from, relay);
    FanoutFirst(self, P(x), [P(y)], from, relay);
    FanoutOne(self, P(y), from, relay);
  }

  /** Round the ring and back: the first device stores the frame with two hops and passes it on with three. */
  lemma RoundTheRing(net: Net, d: seq<Host>, frame: Frame, a: Picture)
    requires RingAndLine(net, d)
    requires a == Picture({}, Offered(d, frame))
    ensures Popped(net, a, 4) == Picture({d[1], d[2], d[0]},
      [Leg(d, frame, 0, 2, 0), Leg(d, frame, 0, 3, 0), Leg(d, frame, 0, 3, 3)])
  {
    var rest := [Leg(d, frame, 0, 2, 0), Leg(d, frame, 0, 3, 0)];
    TwoPeers(d[1], d[0], d[2], frame.(hops := Whole(1)));
    Spreads(net, d, frame, a, rest, 0, 1, 0, [Leg(d, frame, 1, 2, 1)]);
    var b := Pop(net, a);
    TwoPeers(d[2], d[1], d[0], frame.(hops := Whole(2)));
    Spreads(net, d, frame, b, rest, 1, 2, 1, [Leg(d, frame, 2, 0, 2)]);
    var e := Pop(net, b);
    ThreePeers(d[0], d[2], d[3], d[1], frame.(hops := Whole(3)));
    Spreads(net, d, frame, e, rest, 2, 0, 2, [Leg(d, frame, 0, 3, 3), Leg(d, frame, 0, 1, 3)]);
    var f := Pop(net, e);
    assert f.stack == (rest + [Leg(d, frame, 0, 3, 3)]) + [Leg(d, frame, 0, 1, 3)];
    Ends(net, d, frame, f, rest + [Leg(d, frame, 0, 3, 3)], 0, 1, 3);
    PoppedFour(net, a);
    assert Pop(net, f).holders == {d[1], d[2], d[0]};
  }

  lemma PoppedFour(net: Net, a: Picture)
    requires a.stack != [] && Pop(net, a).stack != []
    requires Pop(net, Pop(net, a)).stack != [] && Pop(net, Pop(net, Pop(net, a))).stack != []
    ensures Popped(net, a, 4) == Pop(net, Pop(net, Pop(net, Pop(net, a))))
  {
    var b := Pop(net, a);
    var e := Pop(net, b);
    var f := Pop(net, e);
    assert Popped(net, f, 1) == Pop(net, f);
    assert Popped(net, e, 2) == Popped(net, f, 1);
    assert Popped(net, b, 3) == Popped(net, e, 2);
  }

  /** Who holds it once the line was walked up to device `j`. */
  function Walked(d: seq<Host>, j: nat): set<Host>
    requires |d| == 9 && 2 <= j < 9
  {
    if j == 2 then {d[1], d[2], d[0]} else Walked(d, j - 1) + {d[j]}
  }

  lemma {:induction false} WalkedIs(d: seq<Host>, j: nat)
    requires |d| == 9 && 2 <= j < 9
    ensures Walked(d, j) == set i | 0 <= i <= j :: d[i]
  {
    if j > 2 {
      WalkedIs(d, j - 1);
    }
  }

  /** Down the line: five devices store the frame, and the last refuses it with eight hops. */
  lemma {:induction false} DownTheLine(net: Net, d: seq<Host>, frame: Frame, rest: seq<Packet>, j: nat)
    requires RingAndLine(net, d) && 3 <= j <= 8
    ensures Popped(net, Picture(Walked(d, j - 1), rest + [Leg(d, frame, if j == 3 then 0 else j - 1, j, j)]), 9 - j)
      == Picture(Walked(d, 7), rest)
    decreases 8 - j
  {
    var i := if j == 3 then 0 else j - 1;
    var a := Picture(Walked(d, j - 1), rest + [Leg(d, frame, i, j, j)]);
    WalkedIs(d, j - 1);
    if j == 8 {
      Ends(net, d, frame, a, rest, i, j, j);
      assert Popped(net, a, 1) == Pop(net, a);
    } else {
      LineFanout(net, d, frame, j, j + 1);
      Spreads(net, d, frame, a, rest, i, j, j, [Leg(d, frame, j, j + 1, j + 1)]);
      DownTheLine(net, d, frame, rest, j + 1);
      assert Popped(net, a, 9 - j) == Popped(net, Pop(net, a), 8 - j);
    }
  }

  /** What the first device offered is delivered to the end, and the last device has not got it. */
  lemma WholeRun(net: Net, d: seq<Host>, frame: Frame, a: Picture)
    requires RingAndLine(net, d)
    requires a == Picture({}, Offered(d, frame))
    ensures Popped(net, a, STEPS) == Picture(Walked(d, 7), [])
  {
    var left := [Leg(d, frame, 0, 2, 0), Leg(d, frame, 0, 3, 0)];
    RoundTheRing(net, d, frame, a);
    assert [Leg(d, frame, 0, 2, 0), Leg(d, frame, 0, 3, 0), Leg(d, frame, 0, 3, 3)] == left + [Leg(d, frame, 0, 3, 3)];
    DownTheLine(net, d, frame, left, 3);
    PoppedAgain(net, a, 4, 6);
    var b := Picture(Walked(d, 7), left);
    assert Popped(net, a, 10) == b;
    WalkedIs(d, 7);
    assert left == [Leg(d, frame, 0, 2, 0)] + [Leg(d, frame, 0, 3, 0)];
    Ends(net, d, frame, b, [Leg(d, frame, 0, 2, 0)], 0, 3, 0);
    var e := Pop(net, b);
    assert e.stack == [] + [Leg(d, frame, 0, 2, 0)];
    Ends(net, d, frame, e, [], 0, 2, 0);
    assert Popped(net, e, 1) == Pop(net, e);
    assert Popped(net, b, 2) == Popped(net, e, 1);
    PoppedAgain(net, a, 10, 2);
  }

  // ---------------------------------------------------------------- the history

  /** Nobody holds anything or has charged anybody. */
  ghost predicate Blank(net: Net, w: World)
  {
    && Quiet(net, w)
    && forall h :: h in net.hosts ==> w.net.stores[h] == Store([], []) && w.net.quotas[h] == map[]
  }

  /** The first device is the one that brings the identifier in. */
  function NineScene(net: Net, genuine: FrameCheck, d: seq<Host>, id: string): Scene
    requires |d| == 9
  {
    Scene(net, genuine, {(d[0], id)}, {})
  }

  /** The first device's peers in the order it sends to them. */
  function Target(d: seq<Host>, k: nat): Host
    requires |d| == 9 && k < 3
  {
    if k == 0 then d[2] else if k == 1 then d[3] else d[1]
  }

  /** The world after it has sent the frame to this many of them. */
  ghost function SentTo(sc: Scene, d: seq<Host>, frame: Frame, w: World, k: nat): World
    requires |d| == 9 && k <= 3
  {
    if k == 0 then w else SendIn(sc, SentTo(sc, d, frame, w, k - 1), d[0], Target(d, k - 1), frame)
  }

  lemma SendAdds(sc: Scene, d: seq<Host>, frame: Frame, w: World, k: nat)
    requires |d| == 9 && k < 3
    ensures SentTo(sc, d, frame, w, k + 1).net.flight
      == SentTo(sc, d, frame, w, k).net.flight + multiset{Packet(d[0], Target(d, k), frame)}
  {}

  lemma ThreeAdded(x: Packet, y: Packet, z: Packet)
    ensures multiset{} + multiset{x} + multiset{y} + multiset{z} == multiset([x, y] + [z])
  {
    assert [x, y] + [z] == [x, y, z];
  }

  lemma SentFlight(sc: Scene, d: seq<Host>, frame: Frame, w: World)
    requires |d| == 9 && w.net.flight == multiset{} && frame.hops == Whole(0)
    ensures SentTo(sc, d, frame, w, 3).net.flight == multiset(Offered(d, frame))
  {
    SendAdds(sc, d, frame, w, 0);
    SendAdds(sc, d, frame, w, 1);
    SendAdds(sc, d, frame, w, 2);
    ThreeAdded(Packet(d[0], d[2], frame), Packet(d[0], d[3], frame), Packet(d[0], d[1], frame));
    assert frame.(hops := Whole(0)) == frame;
  }

  lemma OfferedCarry(d: seq<Host>, frame: Frame)
    requires |d| == 9 && frame.hops == Whole(0)
    ensures forall p :: p in Offered(d, frame) ==> Carries(p, frame)
  {}

  lemma {:induction false} SentRest(sc: Scene, d: seq<Host>, frame: Frame, w: World, k: nat)
    requires |d| == 9 && k <= 3
    ensures var w' := SentTo(sc, d, frame, w, k);
      && w'.net.stores == w.net.stores && w'.net.quotas == w.net.quotas
      && w'.past.lost == w.past.lost && w'.past.refused == w.past.refused
      && (sc.genuine(frame) ==> forall i :: 0 <= i < k ==> (d[0], frame.contentId, Target(d, i)) in w'.past.sent)
  {
    if k > 0 {
      SentRest(sc, d, frame, w, k - 1);
    }
  }

  lemma BlankShows(s: Store, quotas: Quotas, id: string, plane: int, size: nat)
    requires s == Store([], []) && quotas == map[]
    ensures StoreShows(s, false, id, plane) && LightlyCharged(quotas, 0, size)
  {}

  lemma OfferedInside(net: Net, d: seq<Host>, frame: Frame)
    requires RingAndLine(net, d)
    ensures forall p :: p in Offered(d, frame) ==> p.dst in net.hosts
  {
    assert d[1] in net.hosts && d[2] in net.hosts && d[3] in net.hosts;
  }

  lemma OfferShows(sc: Scene, d: seq<Host>, frame: Frame, plane: int, size: nat, w: World)
    requires RingAndLine(sc.net, d) && Blank(sc.net, w) && frame.hops == Whole(0)
    ensures Shows(sc.net, frame, plane, size, SentTo(sc, d, frame, w, 3), Picture({}, Offered(d, frame)), 0)
  {
    var w' := SentTo(sc, d, frame, w, 3);
    SentFlight(sc, d, frame, w);
    OfferedCarry(d, frame);
    SentRest(sc, d, frame, w, 3);
    OfferedInside(sc.net, d, frame);
    forall h | h in sc.net.hosts
      ensures StoreShows(w'.net.stores[h], false, frame.contentId, plane) && LightlyCharged(w'.net.quotas[h], 0, size)
    {
      BlankShows(w.net.stores[h], w.net.quotas[h], frame.contentId, plane, size);
    }
  }

  lemma SendsOn(sc: Scene, d: seq<Host>, frame: Frame, w: World, k: nat)
    requires RingAndLine(sc.net, d) && d[0] in w.net.stores && k < 3
    requires sc.genuine(frame) && frame.hops == Whole(0) && (d[0], frame.contentId) in sc.origins
    ensures Sending(sc, SentTo(sc, d, frame, w, k), SentTo(sc, d, frame, w, k + 1))
  {
    SentRest(sc, d, frame, w, k);
    assert d[0] in sc.net.hosts;
    assert P(Target(d, k)) in sc.net.peers(d[0]);
    assert Sendable(sc, SentTo(sc, d, frame, w, k), d[0], frame);
    assert SentTo(sc, d, frame, w, k + 1) == SendIn(sc, SentTo(sc, d, frame, w, k), d[0], P(Target(d, k)).host, frame);
  }

  lemma HistoryOf(sc: Scene, d: seq<Host>, frame: Frame, w: World, run: seq<World>)
    requires RingAndLine(sc.net, d) && Blank(sc.net, w) && sc.seeded == {}
    requires sc.genuine(frame) && frame.hops == Whole(0) && (d[0], frame.contentId) in sc.origins
    requires run != [] && IsWorldRun(sc.net, run) && run[0] == SentTo(sc, d, frame, w, 3)
    ensures IsHistory(sc, [w, SentTo(sc, d, frame, w, 1), SentTo(sc, d, frame, w, 2)] + run)
  {
    var first := [w, SentTo(sc, d, frame, w, 1), SentTo(sc, d, frame, w, 2)];
    var history := first + run;
    assert d[0] in w.net.stores by {
      assert d[0] in sc.net.hosts;
    }
    forall i | 0 <= i < |history| - 1 ensures Move(sc, history[i], history[i + 1]) {
      if i < 3 {
        assert history[i] == SentTo(sc, d, frame, w, i) && history[i + 1] == SentTo(sc, d, frame, w, i + 1);
        SendsOn(sc, d, frame, w, i);
      } else {
        assert history[i] == run[i - 3] && history[i + 1] == run[i - 3 + 1];
        assert WorldStep(sc.net, run[i - 3], run[i - 3 + 1]);
      }
    }
    assert Held(sc.net, w.net) == {};
  }

  /** What the picture tells at the end. */
  lemma EndShows(net: Net, d: seq<Host>, frame: Frame, plane: int, size: nat, end: World, m: nat)
    requires RingAndLine(net, d) && Shows(net, frame, plane, size, end, Picture(Walked(d, 7), []), m)
    ensures end.net.flight == multiset{} && Unhindered(end, frame.contentId)
    ensures d[8] in end.net.stores && !end.net.stores[d[8]].HasId(frame.contentId)
  {
    WalkedIs(d, 7);
    assert d[8] !in Walked(d, 7);
    assert d[8] in net.hosts;
    assert StoreShows(end.net.stores[d[8]], false, frame.contentId, plane);
  }

  lemma StepKeepsSent(net: Net, w: World, w': World)
    requires WorldStep(net, w, w')
    ensures w'.past.sent == w.past.sent
  {
    var p :| p in w.net.flight && p.dst in w.net.stores && p.dst in w.net.quotas
      && (w' == LoseIn(w, p) || exists nowMs :: w' == DeliverIn(net, w, p, nowMs));
    if w' != LoseIn(w, p) {
      var nowMs :| w' == DeliverIn(net, w, p, nowMs);
      NotedKeepsSent(w.past, p, Outcome(net, w.net, p, nowMs));
    }
  }

  lemma NotedKeepsSent(past: History, p: Packet, r: Receipt)
    ensures Noted(past, p, r).sent == past.sent
  {}

  /** What a device sent of its own accord is not forgotten. */
  lemma {:induction false} SentStaysNoted(net: Net, run: seq<World>)
    requires run != [] && IsWorldRun(net, run)
    ensures run[|run| - 1].past.sent == run[0].past.sent
    decreases |run|
  {
    if |run| > 1 {
      assert WorldStep(net, run[0], run[0 + 1]);
      StepKeepsSent(net, run[0], run[1]);
      var rest := run[1..];
      forall i | 0 <= i < |rest| - 1 ensures WorldStep(net, rest[i], rest[i + 1]) {
        assert WorldStep(net, run[i + 1], run[i + 1 + 1]);
      }
      SentStaysNoted(net, rest);
    }
  }

  lemma LinePath(net: Net, d: seq<Host>)
    requires RingAndLine(net, d)
    ensures IsPath(net, [d[0], d[3], d[4], d[5], d[6], d[7], d[8]])
  {
    var path := [d[0], d[3], d[4], d[5], d[6], d[7], d[8]];
    forall i | 0 <= i < |path| - 1 ensures LinksTo(net, path[i], path[i + 1]) {
      assert P(path[i + 1]) in net.peers(path[i]);
    }
  }

  /** For any verifiers: from an offer by the first device a run comes to rest without the last one. */
  lemma HopsRunOut(net: Net, d: seq<Host>, genuine: FrameCheck, frame: Frame, wire: seq<byte>, plane: int, nowMs: int,
                   w: World) returns (history: seq<World>)
    requires RingAndLine(net, d) && Blank(net, w)
    requires genuine(frame) && frame.hops == Whole(0) && Welcome(net, frame, wire, plane, nowMs)
    ensures IsHistory(NineScene(net, genuine, d, frame.contentId), history) && history[0] == w
    ensures Settles(history, frame.contentId)
    ensures SourcesShared(NineScene(net, genuine, d, frame.contentId), history[|history| - 1], frame.contentId)
    ensures var end := history[|history| - 1];
      && IsPath(net, [d[0], d[3], d[4], d[5], d[6], d[7], d[8]])
      && d[8] in end.net.stores && !end.net.stores[d[8]].HasId(frame.contentId)
  {
    var sc := NineScene(net, genuine, d, frame.contentId);
    var a := Picture({}, Offered(d, frame));
    OfferShows(sc, d, frame, plane, |wire|, w);
    var run := PopsShow(net, frame, wire, plane, nowMs, SentTo(sc, d, frame, w, 3), a);
    WholeRun(net, d, frame, a);
    EndShows(net, d, frame, plane, |wire|, run[|run| - 1], STEPS);
    LinePath(net, d);
    HistoryOf(sc, d, frame, w, run);
    history := [w, SentTo(sc, d, frame, w, 1), SentTo(sc, d, frame, w, 2)] + run;
    AllServed(sc, d, frame, w, run);
  }

  lemma AllServed(sc: Scene, d: seq<Host>, frame: Frame, w: World, run: seq<World>)
    requires RingAndLine(sc.net, d) && sc == NineScene(sc.net, sc.genuine, d, frame.contentId) && sc.genuine(frame)
    requires run != [] && IsWorldRun(sc.net, run) && run[0] == SentTo(sc, d, frame, w, 3)
    ensures SourcesShared(sc, run[|run| - 1], frame.contentId)
  {
    SentRest(sc, d, frame, w, 3);
    SentStaysNoted(sc.net, run);
    forall q | q in sc.net.peers(d[0]) ensures (d[0], frame.contentId, q.host) in run[|run| - 1].past.sent {
      assert q.host == Target(d, 0) || q.host == Target(d, 1) || q.host == Target(d, 2);
    }
  }

  lemma GenuineTaken(c: Checks, certified: CertificateCheck, envelope: string, id: string)
    requires GenuineBytes(c, envelope, id)
    requires certified(VerifyContent(c, Base64Url.Decode(envelope).value, id, false).value)
    ensures MeshVerifier(c, certified)(Base64Url.Decode(envelope).value, id)
      == VerifyContent(c, Base64Url.Decode(envelope).value, id, false)
  {}

  /** A frame that is in time, not too big for twelve, and has its certificate with every device. */
  ghost predicate WelcomeAll(c: Checks, certified: Host -> CertificateCheck, d: seq<Host>, frame: Frame, nowMs: int)
    requires Genuine(c, frame)
  {
    var wire := Base64Url.Decode(frame.envelope).value;
    && !Stale(frame, nowMs) && STEPS * |wire| <= Quota.MAX_BYTES
    && forall h :: h in d ==> certified(h)(VerifyContent(c, wire, frame.contentId, false).value)
  }

  lemma GenuineIsWelcome(net: Net, c: Checks, certified: Host -> CertificateCheck, d: seq<Host>, frame: Frame,
                         nowMs: int)
    returns (wire: seq<byte>, plane: int)
    requires RingAndLine(net, d) && Verifies(net, c, certified)
    requires Genuine(c, frame) && WelcomeAll(c, certified, d, frame, nowMs)
    ensures Welcome(net, frame, wire, plane, nowMs)
  {
    wire := Base64Url.Decode(frame.envelope).value;
    plane := VerifyContent(c, wire, frame.contentId, false).value.plane;
    forall h | h in net.hosts ensures TakenAs(net.verify(h)(wire, frame.contentId), plane) {
      GenuineTaken(c, certified(h), frame.envelope, frame.contentId);
    }
  }

  lemma BlankIsSound(net: Net, authentic: RowCheck, w: World)
    requires Blank(net, w)
    ensures forall h :: h in net.hosts ==> Sound(authentic, w.net.stores[h])
  {}

  lemma NineApart(net: Net, d: seq<Host>)
    requires RingAndLine(net, d)
    ensures d[0] != d[8]
  {}

  /**
   The hops can run out in a network of nine devices that run the program: after an offer by the first
   device there is a run in which nothing is lost and nobody refuses the frame but for its hops, which
   comes to rest without the last device holding it, although a path of peers leads there.
   */
  lemma ProgramHopsRunOut(net: Net, c: Checks, certified: Host -> CertificateCheck, d: seq<Host>, frame: Frame,
                          nowMs: int, w: World) returns (history: seq<World>)
    requires CollisionFree(c.sha) && RingAndLine(net, d) && Verifies(net, c, certified) && Blank(net, w)
    requires Genuine(c, frame) && frame.hops == Whole(0) && WelcomeAll(c, certified, d, frame, nowMs)
    ensures var sc := NineScene(net, GenuineFrames(c), d, frame.contentId);
      && Runs(sc, c, certified, history) && history[0] == w
      && Settles(history, frame.contentId)
      && SourcesShared(sc, history[|history| - 1], frame.contentId)
      && Has(sc.origins, history[|history| - 1], d[0], frame.contentId)
      && !Has(sc.origins, history[|history| - 1], d[8], frame.contentId)
    ensures IsPath(net, [d[0], d[3], d[4], d[5], d[6], d[7], d[8]])
  {
    var wire, plane := GenuineIsWelcome(net, c, certified, d, frame, nowMs);
    history := HopsRunOut(net, d, GenuineFrames(c), frame, wire, plane, nowMs, w);
    BlankIsSound(net, AuthenticRows(c), w);
    NineApart(net, d);
    assert Runs(NineScene(net, GenuineFrames(c), d, frame.contentId), c, certified, history);
    StillThere(net, c, certified, d, frame.contentId, history);
  }

  /** The devices of a history are the ones it began with. */
  lemma StillThere(net: Net, c: Checks, certified: Host -> CertificateCheck, d: seq<Host>, id: string,
                   history: seq<World>)
    requires RingAndLine(net, d) && Runs(NineScene(net, GenuineFrames(c), d, id), c, certified, history)
    ensures d[0] in history[|history| - 1].net.stores
  {
    HistoryOk(NineScene(net, GenuineFrames(c), d, id), c, certified, history, id);
    assert d[0] in net.hosts;
  }
}
