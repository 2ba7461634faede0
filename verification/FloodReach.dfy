/**
 Where a flood gets to. Beside the network's state we keep what happened: what each device has
 relayed and sent, what was refused and why, and what was lost on the way.
 */
module FloodReach {
  import opened Wrappers
  import opened Canonical
  import opened Decode
  import opened JsonNumbers
  import opened Mesh
  import opened MeshRows
  import opened Flood
  import opened ContentId
  import Base64Url

  /** A frame passed on to all peers of a device except the host it came from. */
  datatype Relay = Relay(from: Host, frame: Frame)

  type Key = (Host, string)

  /** A device, an identifier and a peer the device sent it to of its own accord. */
  type Link = (Host, string, Host)

  datatype History = History(
    relays: map<Key, Relay>,
    sent: map<Link, Frame>,
    refused: set<(Host, string, Reason)>,
    lost: set<Key>)

  datatype World = World(net: State, past: History)

  function Noted(past: History, p: Packet, r: Receipt): History
  {
    var id := p.frame.contentId;
    match r.status
    case Stored =>
      if r.relay.Some? then past.(relays := past.relays[(p.dst, id) := Relay(p.src, r.relay.value)]) else past
    case Duplicate => past
    case Rejected(reason) => past.(refused := past.refused + {(p.dst, id, reason)})
  }

  function DeliverIn(net: Net, w: World, p: Packet, nowMs: int): World
    requires p.dst in w.net.stores && p.dst in w.net.quotas
  {
    World(Deliver(net, w.net, p, nowMs), Noted(w.past, p, Outcome(net, w.net, p, nowMs)))
  }

  function LoseIn(w: World, p: Packet): World
  {
    World(Lose(w.net, p), w.past.(lost := w.past.lost + {(p.dst, p.frame.contentId)}))
  }

  ghost predicate WorldStep(net: Net, w: World, w': World)
  {
    exists p :: p in w.net.flight && p.dst in w.net.stores && p.dst in w.net.quotas
      && (w' == LoseIn(w, p) || exists nowMs :: w' == DeliverIn(net, w, p, nowMs))
  }

  ghost predicate IsWorldRun(net: Net, run: seq<World>)
  {
    forall i :: 0 <= i < |run| - 1 ==> WorldStep(net, run[i], run[i + 1])
  }

  /** A judgement on frames; the one that matters is `GenuineFrames`. */
  type FrameCheck = Frame -> bool

  /**
   What a history is about: the network, which frames are genuine, the devices that bring in identifiers
   of their own, and what was held at the start.
   */
  datatype Scene = Scene(net: Net, genuine: FrameCheck, origins: set<Key>, seeded: set<Key>)

  /** The device holds the identifier, or is one that brings it in. */
  ghost predicate Has(origins: set<Key>, w: World, h: Host, id: string)
  {
    h in w.net.stores && (w.net.stores[h].HasId(id) || (h, id) in origins)
  }

  /**
   What a device may send: a row it has stored, with the hops it has there, or a genuine frame of its own
   with none.
   */
  ghost predicate Sendable(sc: Scene, w: World, h: Host, frame: Frame)
  {
    && h in w.net.stores
    && ((exists r :: r in w.net.stores[h].List() && frame == Reoffer(r))
      || (sc.genuine(frame) && frame.hops == Whole(0) && (h, frame.contentId) in sc.origins))
  }

  /** A device sends a frame to one of its peers, as it does with all it has when the peer turns up. */
  ghost function SendIn(sc: Scene, w: World, h: Host, g: Host, frame: Frame): World
  {
    World(w.net.(flight := w.net.flight + multiset{Packet(h, g, frame)}),
          if sc.genuine(frame) then w.past.(sent := w.past.sent[(h, frame.contentId, g) := frame]) else w.past)
  }

  ghost predicate Sending(sc: Scene, w: World, w': World)
  {
    exists h: Host, q: Peer, frame: Frame :: h in sc.net.hosts && q in sc.net.peers(h) && Sendable(sc, w, h, frame)
      && w' == SendIn(sc, w, h, q.host, frame)
  }

  ghost predicate Move(sc: Scene, w: World, w': World)
  {
    WorldStep(sc.net, w, w') || Sending(sc, w, w')
  }

  // ---------------------------------------------------------------- refusals

  /** Bytes that pass every check that does not depend on the device or the clock. */
  ghost predicate GenuineBytes(c: Checks, envelope: string, id: string)
  {
    && Base64Url.Decode(envelope).Some?
    && VerifyContent(c, Base64Url.Decode(envelope).value, id, false).Ok?
  }

  /** A frame of such bytes, whose hops are not below zero. */
  ghost predicate Genuine(c: Checks, frame: Frame)
  {
    !Negative(frame.hops) && GenuineBytes(c, frame.envelope, frame.contentId)
  }

  /** Spelled out: bytes that decode to an envelope that passes every check and is no BULK. */
  lemma GenuineBytesExactly(c: Checks, envelope: string, id: string)
    ensures GenuineBytes(c, envelope, id) <==>
      match Base64Url.Decode(envelope)
      case None => false
      case Some(wire) =>
        match DecodeSigned(c.nfc, c.utf8, wire)
        case Err(_) => false
        case Ok(e) => PassesChecks(c, e, |wire|, id) && e.priority != 4
  {
    if Base64Url.Decode(envelope).Some? {
      var wire := Base64Url.Decode(envelope).value;
      if VerifyContent(c, wire, id, false).Ok? {
        ContentExactly(c, wire, id, false, VerifyContent(c, wire, id, false).value);
      }
      if DecodeSigned(c.nfc, c.utf8, wire).Ok? {
        ContentExactly(c, wire, id, false, DecodeSigned(c.nfc, c.utf8, wire).value);
      }
    }
  }

  /** The reasons for which a device may refuse a genuine frame. */
  predicate Excused(reason: Reason, hops: Value)
  {
    reason == TtlExpired || reason == QuotaExceeded || reason == CertInvalid || (reason == HopLimit && Spent(hops))
  }

  lemma GenuineVerified(c: Checks, certified: CertificateCheck, frame: Frame)
    requires Genuine(c, frame)
    ensures var v := MeshVerifier(c, certified)(Base64Url.Decode(frame.envelope).value, frame.contentId);
      v.Ok? || v == Err(CertInvalid)
  {}

  lemma VerifiedGenuine(c: Checks, certified: CertificateCheck, envelope: string, id: string)
    requires Base64Url.Decode(envelope).Some?
    requires MeshVerifier(c, certified)(Base64Url.Decode(envelope).value, id).Ok?
    ensures GenuineBytes(c, envelope, id)
  {}

  lemma RefusalExcused(verify: Verifier, store: Store, quotas: Quotas, peer: string, frame: Frame, nowMs: int)
    requires !Negative(frame.hops) && Base64Url.Decode(frame.envelope).Some?
    requires var v := verify(Base64Url.Decode(frame.envelope).value, frame.contentId); v.Ok? || v == Err(CertInvalid)
    ensures var status := Receive(verify, store, quotas, peer, frame, nowMs).status;
      status.Rejected? ==> Excused(status.reason, frame.hops)
  {}

  lemma AcceptedFrame(verify: Verifier, store: Store, quotas: Quotas, peer: string, frame: Frame, nowMs: int)
    requires Receive(verify, store, quotas, peer, frame, nowMs).status.Stored?
    ensures !Negative(frame.hops) && Base64Url.Decode(frame.envelope).Some?
    ensures verify(Base64Url.Decode(frame.envelope).value, frame.contentId).Ok?
  {}

  // ---------------------------------------------------------------- the invariant

  /** What can have become of a frame sent to one device. */
  ghost predicate Settled(w: World, h: Host, frame: Frame)
    requires h in w.net.stores
  {
    || w.net.stores[h].HasId(frame.contentId)
    || (h, frame.contentId) in w.past.lost
    || exists reason :: (h, frame.contentId, reason) in w.past.refused && Excused(reason, frame.hops)
  }

  /** A frame has reached a peer, or is on its way to it. */
  ghost predicate Pursued(w: World, h: Host, frame: Frame, peer: Host)
    requires peer in w.net.stores
  {
    Settled(w, peer, frame) || Packet(h, peer, frame) in w.net.flight
  }

  ghost predicate IsPath(net: Net, path: seq<Host>)
  {
    && path != []
    && forall i :: 0 <= i < |path| - 1 ==> LinksTo(net, path[i], path[i + 1])
  }

  ghost predicate LinksTo(net: Net, h: Host, g: Host)
  {
    exists q :: q in net.peers(h) && q.host == g
  }

  ghost predicate RelayKept(sc: Scene, w: World, k: Key, o: Relay)
    requires WellFormed(sc.net, w.net)
  {
    && k.0 in sc.net.hosts && o.frame.contentId == k.1 && sc.genuine(o.frame)
    && w.net.stores[k.0].HasId(k.1) && Has(sc.origins, w, o.from, k.1)
    && forall q :: q in sc.net.peers(k.0) && q.host != o.from ==> Pursued(w, k.0, o.frame, q.host)
  }

  ghost predicate SentKept(sc: Scene, w: World, l: Link, f: Frame)
    requires WellFormed(sc.net, w.net)
  {
    f.contentId == l.1 && sc.genuine(f) && l.2 in sc.net.hosts && Pursued(w, l.0, f, l.2)
  }

  /** A packet goes along a link, from a device that has what it carries. */
  ghost predicate PacketKept(sc: Scene, w: World, p: Packet)
  {
    Has(sc.origins, w, p.src, p.frame.contentId) && LinksTo(sc.net, p.src, p.dst)
  }

  /** Some device that has the identifier is linked to this one. */
  ghost predicate Refuser(sc: Scene, w: World, h: Host, id: string)
  {
    exists s :: Has(sc.origins, w, s, id) && LinksTo(sc.net, s, h)
  }

  /** Whoever holds an identifier passed it on when it came, or held it from the start. */
  ghost predicate Accounted(sc: Scene, w: World, h: Host)
    requires h in w.net.stores
  {
    forall id :: w.net.stores[h].HasId(id) ==> (h, id) in w.past.relays || (h, id) in sc.seeded
  }

  ghost predicate Inv(sc: Scene, w: World)
  {
    && WellFormed(sc.net, w.net)
    && (forall k :: k in w.past.relays ==> RelayKept(sc, w, k, w.past.relays[k]))
    && (forall l :: l in w.past.sent ==> SentKept(sc, w, l, w.past.sent[l]))
    && (forall p :: p in w.net.flight ==> PacketKept(sc, w, p))
    && (forall h, id, reason :: (h, id, reason) in w.past.refused ==> Refuser(sc, w, h, id))
    && (forall h :: h in sc.net.hosts ==> Accounted(sc, w, h))
  }

  /** What the outcome of a delivery tells about the device and the frame. */
  ghost predicate Telling(genuine: FrameCheck, store: Store, frame: Frame, r: Receipt)
  {
    && Extends(store, r.store)
    && (forall q :: q in r.store.List() ==>
          q in store.List() || (r.status.Stored? && q.contentId == frame.contentId && q.hops == frame.hops))
    && (r.relay == if r.status.Stored? then Some(frame.(hops := PlusOne(frame.hops))) else None)
    && (r.status.Stored? ==> genuine(frame.(hops := PlusOne(frame.hops))))
    && (!r.status.Rejected? ==> r.store.HasId(frame.contentId))
    && (r.status.Rejected? && genuine(frame) ==> Excused(r.status.reason, frame.hops))
  }

  function ApplyIn(net: Net, w: World, p: Packet, r: Receipt): World
  {
    World(Apply(net, w.net, p, r), Noted(w.past, p, r))
  }

  // ---------------------------------------------------------------- a delivery keeps it

  lemma HasStays(sc: Scene, w: World, p: Packet, r: Receipt, h: Host, id: string)
    requires WellFormed(sc.net, w.net) && p in w.net.flight && Extends(w.net.stores[p.dst], r.store)
    requires Has(sc.origins, w, h, id)
    ensures Has(sc.origins, ApplyIn(sc.net, w, p, r), h, id)
  {
    if h == p.dst && w.net.stores[h].HasId(id) {
      HasIdExtends(w.net.stores[h], r.store, id);
    }
  }

  lemma SettledStays(net: Net, w: World, p: Packet, r: Receipt, h: Host, frame: Frame)
    requires WellFormed(net, w.net) && p in w.net.flight && h in net.hosts
    requires Extends(w.net.stores[p.dst], r.store)
    requires Settled(w, h, frame)
    ensures Settled(ApplyIn(net, w, p, r), h, frame)
  {
    if h == p.dst && w.net.stores[h].HasId(frame.contentId) {
      HasIdExtends(w.net.stores[h], r.store, frame.contentId);
    }
  }

  lemma PursuedStays(net: Net, genuine: FrameCheck, w: World, p: Packet, r: Receipt, h: Host, frame: Frame, peer: Host)
    requires WellFormed(net, w.net) && p in w.net.flight && peer in net.hosts
    requires Telling(genuine, w.net.stores[p.dst], p.frame, r)
    requires genuine(frame) && Pursued(w, h, frame, peer)
    ensures Pursued(ApplyIn(net, w, p, r), h, frame, peer)
  {
    if Settled(w, peer, frame) {
      SettledStays(net, w, p, r, peer, frame);
    } else if Packet(h, peer, frame) == p {
      if r.status.Rejected? {
        assert (peer, frame.contentId, r.status.reason) in ApplyIn(net, w, p, r).past.refused;
      }
    } else {
      assert Packet(h, peer, frame) in w.net.flight - multiset{p};
    }
  }

  /** The relays made before the delivery are still kept after it. */
  lemma RelayStays(sc: Scene, w: World, p: Packet, r: Receipt, k: Key, o: Relay)
    requires WellFormed(sc.net, w.net) && WellFormed(sc.net, Apply(sc.net, w.net, p, r)) && p in w.net.flight
    requires Telling(sc.genuine, w.net.stores[p.dst], p.frame, r)
    requires RelayKept(sc, w, k, o)
    ensures RelayKept(sc, ApplyIn(sc.net, w, p, r), k, o)
  {
    var w' := ApplyIn(sc.net, w, p, r);
    HasStays(sc, w, p, r, o.from, k.1);
    if k.0 == p.dst {
      HasIdExtends(w.net.stores[k.0], r.store, k.1);
    }
    forall q | q in sc.net.peers(k.0) && q.host != o.from
      ensures Pursued(w', k.0, o.frame, q.host)
    {
      PursuedStays(sc.net, sc.genuine, w, p, r, k.0, o.frame, q.host);
    }
  }

  /** A newly stored frame is passed on to every peer but the sender: all the relays are in flight. */
  lemma NewRelay(sc: Scene, w: World, p: Packet, r: Receipt)
    requires WellFormed(sc.net, w.net) && WellFormed(sc.net, Apply(sc.net, w.net, p, r)) && p in w.net.flight
    requires Telling(sc.genuine, w.net.stores[p.dst], p.frame, r) && r.status.Stored?
    requires Has(sc.origins, w, p.src, p.frame.contentId)
    ensures RelayKept(sc, ApplyIn(sc.net, w, p, r), (p.dst, p.frame.contentId), Relay(p.src, r.relay.value))
  {
    var w' := ApplyIn(sc.net, w, p, r);
    HasStays(sc, w, p, r, p.src, p.frame.contentId);
    SendsExact(sc.net, p, r);
    forall q | q in sc.net.peers(p.dst) && q.host != p.src
      ensures Pursued(w', p.dst, r.relay.value, q.host)
    {
      var relay := Packet(p.dst, q.host, r.relay.value);
      assert IsRelay(sc.net, p, r, relay);
      assert relay in multiset(Sends(sc.net, p, r));
    }
  }

  lemma RelaysStay(sc: Scene, w: World, p: Packet, r: Receipt)
    requires Inv(sc, w) && p in w.net.flight && WellFormed(sc.net, Apply(sc.net, w.net, p, r))
    requires Telling(sc.genuine, w.net.stores[p.dst], p.frame, r)
    ensures var w' := ApplyIn(sc.net, w, p, r);
      forall k :: k in w'.past.relays ==> RelayKept(sc, w', k, w'.past.relays[k])
  {
    var w' := ApplyIn(sc.net, w, p, r);
    assert PacketKept(sc, w, p);
    forall k | k in w'.past.relays ensures RelayKept(sc, w', k, w'.past.relays[k]) {
      if r.status.Stored? && k == (p.dst, p.frame.contentId) {
        NewRelay(sc, w, p, r);
      } else {
        RelayStays(sc, w, p, r, k, w.past.relays[k]);
      }
    }
  }

  lemma SentStays(sc: Scene, w: World, p: Packet, r: Receipt)
    requires Inv(sc, w) && p in w.net.flight && WellFormed(sc.net, Apply(sc.net, w.net, p, r))
    requires Telling(sc.genuine, w.net.stores[p.dst], p.frame, r)
    ensures var w' := ApplyIn(sc.net, w, p, r);
      forall l :: l in w'.past.sent ==> SentKept(sc, w', l, w'.past.sent[l])
  {
    var w' := ApplyIn(sc.net, w, p, r);
    forall l | l in w'.past.sent ensures SentKept(sc, w', l, w'.past.sent[l]) {
      assert SentKept(sc, w, l, w.past.sent[l]);
      PursuedStays(sc.net, sc.genuine, w, p, r, l.0, w.past.sent[l], l.2);
    }
  }

  lemma PacketsKept(sc: Scene, w: World, p: Packet, r: Receipt)
    requires Inv(sc, w) && p in w.net.flight
    requires Telling(sc.genuine, w.net.stores[p.dst], p.frame, r)
    ensures var w' := ApplyIn(sc.net, w, p, r);
      forall q :: q in w'.net.flight ==> PacketKept(sc, w', q)
  {
    var w' := ApplyIn(sc.net, w, p, r);
    FlightAfter(sc.net, w.net, p, r);
    forall q | q in w'.net.flight ensures PacketKept(sc, w', q) {
      if q in w.net.flight {
        assert PacketKept(sc, w, q);
        HasStays(sc, w, p, r, q.src, q.frame.contentId);
      }
    }
  }

  lemma RefusersStay(sc: Scene, w: World, p: Packet, r: Receipt)
    requires Inv(sc, w) && p in w.net.flight
    requires Telling(sc.genuine, w.net.stores[p.dst], p.frame, r)
    ensures var w' := ApplyIn(sc.net, w, p, r);
      forall h, id, reason :: (h, id, reason) in w'.past.refused ==> Refuser(sc, w', h, id)
  {
    var w' := ApplyIn(sc.net, w, p, r);
    assert PacketKept(sc, w, p);
    forall h, id, reason | (h, id, reason) in w'.past.refused ensures Refuser(sc, w', h, id) {
      var s :| Has(sc.origins, w, s, id) && LinksTo(sc.net, s, h);
      HasStays(sc, w, p, r, s, id);
    }
  }

  lemma ApplyAccounted(sc: Scene, w: World, p: Packet, r: Receipt, h: Host)
    requires WellFormed(sc.net, w.net) && p.dst in sc.net.hosts && h in sc.net.hosts && Accounted(sc, w, h)
    requires Telling(sc.genuine, w.net.stores[p.dst], p.frame, r)
    ensures Accounted(sc, ApplyIn(sc.net, w, p, r), h)
  {}

  lemma ApplyInv(sc: Scene, w: World, p: Packet, r: Receipt)
    requires Inv(sc, w) && p in w.net.flight
    requires Telling(sc.genuine, w.net.stores[p.dst], p.frame, r)
    ensures Inv(sc, ApplyIn(sc.net, w, p, r))
  {
    ApplyWellFormed(sc.net, w.net, p, r);
    RelaysStay(sc, w, p, r);
    SentStays(sc, w, p, r);
    PacketsKept(sc, w, p, r);
    RefusersStay(sc, w, p, r);
    forall h | h in sc.net.hosts ensures Accounted(sc, ApplyIn(sc.net, w, p, r), h) {
      ApplyAccounted(sc, w, p, r, h);
    }
  }

  // ---------------------------------------------------------------- losing and sending keep it

  lemma LoseInv(sc: Scene, w: World, p: Packet)
    requires Inv(sc, w) && p in w.net.flight
    ensures Inv(sc, LoseIn(w, p))
  {
    var w' := LoseIn(w, p);
    forall k | k in w'.past.relays ensures RelayKept(sc, w', k, w'.past.relays[k]) {
      var o := w.past.relays[k];
      assert RelayKept(sc, w, k, o);
      forall q | q in sc.net.peers(k.0) && q.host != o.from ensures Pursued(w', k.0, o.frame, q.host) {
        LosePursued(sc.net, w, p, k.0, o.frame, q.host);
      }
    }
    forall l | l in w'.past.sent ensures SentKept(sc, w', l, w'.past.sent[l]) {
      assert SentKept(sc, w, l, w.past.sent[l]);
      LosePursued(sc.net, w, p, l.0, w.past.sent[l], l.2);
    }
    LoseRest(sc, w, p);
  }

  lemma LoseRest(sc: Scene, w: World, p: Packet)
    requires Inv(sc, w) && p in w.net.flight
    ensures forall q :: q in LoseIn(w, p).net.flight ==> PacketKept(sc, LoseIn(w, p), q)
    ensures forall h, id, reason :: (h, id, reason) in LoseIn(w, p).past.refused ==> Refuser(sc, LoseIn(w, p), h, id)
  {
    SameStores(sc, w, LoseIn(w, p));
    forall q | q in LoseIn(w, p).net.flight ensures PacketKept(sc, LoseIn(w, p), q) {
      assert PacketKept(sc, w, q);
    }
  }

  /** With the same stores the same devices have the same identifiers. */
  lemma SameStores(sc: Scene, w: World, w': World)
    requires w'.net.stores == w.net.stores
    ensures forall h, id :: Has(sc.origins, w', h, id) <==> Has(sc.origins, w, h, id)
    ensures forall h, id :: Refuser(sc, w, h, id) ==> Refuser(sc, w', h, id)
  {
    forall h, id | Refuser(sc, w, h, id) ensures Refuser(sc, w', h, id) {
      var s :| Has(sc.origins, w, s, id) && LinksTo(sc.net, s, h);
      assert Has(sc.origins, w', s, id);
    }
  }

  lemma LosePursued(net: Net, w: World, p: Packet, h: Host, frame: Frame, peer: Host)
    requires WellFormed(net, w.net) && p in w.net.flight && peer in net.hosts
    requires Pursued(w, h, frame, peer)
    ensures Pursued(LoseIn(w, p), h, frame, peer)
  {
    if !Settled(w, peer, frame) && Packet(h, peer, frame) != p {
      assert Packet(h, peer, frame) in w.net.flight - multiset{p};
    }
  }

  lemma SendableHas(sc: Scene, w: World, h: Host, frame: Frame)
    requires Sendable(sc, w, h, frame)
    ensures Has(sc.origins, w, h, frame.contentId)
  {}

  /** What was pursued still is when another packet is in flight too. */
  lemma SendPursued(sc: Scene, w: World, h: Host, g: Host, frame: Frame, s: Host, f: Frame, peer: Host)
    requires peer in w.net.stores && Pursued(w, s, f, peer)
    ensures Pursued(SendIn(sc, w, h, g, frame), s, f, peer)
  {}

  lemma SendInv(sc: Scene, w: World, h: Host, g: Peer, frame: Frame)
    requires Inv(sc, w) && h in sc.net.hosts && g in sc.net.peers(h) && Sendable(sc, w, h, frame)
    ensures Inv(sc, SendIn(sc, w, h, g.host, frame))
  {
    var w' := SendIn(sc, w, h, g.host, frame);
    SameStores(sc, w, w');
    SendableHas(sc, w, h, frame);
    forall k | k in w'.past.relays ensures RelayKept(sc, w', k, w'.past.relays[k]) {
      var o := w.past.relays[k];
      assert RelayKept(sc, w, k, o);
      forall q | q in sc.net.peers(k.0) && q.host != o.from ensures Pursued(w', k.0, o.frame, q.host) {
        SendPursued(sc, w, h, g.host, frame, k.0, o.frame, q.host);
      }
    }
    SendKeepsSent(sc, w, h, g, frame);
    forall p | p in w'.net.flight ensures PacketKept(sc, w', p) {
      assert p in w.net.flight ==> PacketKept(sc, w, p);
    }
  }

  lemma SendKeepsSent(sc: Scene, w: World, h: Host, g: Peer, frame: Frame)
    requires Inv(sc, w) && h in sc.net.hosts && g in sc.net.peers(h)
    ensures WellFormed(sc.net, SendIn(sc, w, h, g.host, frame).net)
    ensures var w' := SendIn(sc, w, h, g.host, frame);
      forall l :: l in w'.past.sent ==> SentKept(sc, w', l, w'.past.sent[l])
  {
    var w' := SendIn(sc, w, h, g.host, frame);
    forall l | l in w'.past.sent ensures SentKept(sc, w', l, w'.past.sent[l]) {
      if !(sc.genuine(frame) && l == (h, frame.contentId, g.host)) {
        assert SentKept(sc, w, l, w.past.sent[l]);
        SendPursued(sc, w, h, g.host, frame, l.0, w.past.sent[l], l.2);
      }
    }
  }

  // ---------------------------------------------------------------- devices that run the program

  ghost function GenuineFrames(c: Checks): FrameCheck
  {
    f => Genuine(c, f)
  }

  lemma StoreAfter(verify: Verifier, store: Store, quotas: Quotas, peer: string, frame: Frame, nowMs: int)
    ensures var r := Receive(verify, store, quotas, peer, frame, nowMs);
      && Extends(store, r.store)
      && (forall q :: q in r.store.List() ==>
            q in store.List() || (r.status.Stored? && q.contentId == frame.contentId && q.hops == frame.hops))
      && (!r.status.Rejected? ==> r.store.HasId(frame.contentId))
  {
    var r := Receive(verify, store, quotas, peer, frame, nowMs);
    if !r.status.Rejected? {
      var e := verify(Base64Url.Decode(frame.envelope).value, frame.contentId).value;
      PutRows(store, RowOf(frame, e, nowMs));
    }
  }

  lemma PutRows(store: Store, row: Row)
    ensures var (store', status) := Put(store, row);
      && Extends(store, store')
      && (forall q :: q in store'.List() ==> q in store.List() || (status.Stored? && q == row))
      && store'.HasId(row.contentId)
  {
    var (store', status) := Put(store, row);
    if status.Stored? {
      assert row in store'.List();
    } else {
      var rows := store.Plane(row.plane);
      var i :| 0 <= i < |rows| && rows[i].contentId == row.contentId;
      assert rows[i] in store.List();
    }
  }

  lemma OutcomeTelling(c: Checks, certified: CertificateCheck, store: Store, quotas: Quotas, peer: string, frame: Frame,
                       nowMs: int)
    ensures Telling(GenuineFrames(c), store, frame,
                    Receive(MeshVerifier(c, certified), store, quotas, peer, frame, nowMs))
  {
    var verify := MeshVerifier(c, certified);
    var r := Receive(verify, store, quotas, peer, frame, nowMs);
    StoreAfter(verify, store, quotas, peer, frame, nowMs);
    RelayOf(verify, store, quotas, peer, frame, nowMs);
    if r.status.Stored? {
      AcceptedFrame(verify, store, quotas, peer, frame, nowMs);
      RelayGenuine(c, certified, frame);
    } else if r.status.Rejected? && Genuine(c, frame) {
      GenuineVerified(c, certified, frame);
      RefusalExcused(verify, store, quotas, peer, frame, nowMs);
    }
  }

  lemma RelayGenuine(c: Checks, certified: CertificateCheck, frame: Frame)
    requires !Negative(frame.hops) && Base64Url.Decode(frame.envelope).Some?
    requires MeshVerifier(c, certified)(Base64Url.Decode(frame.envelope).value, frame.contentId).Ok?
    ensures Genuine(c, frame.(hops := PlusOne(frame.hops)))
  {
    VerifiedGenuine(c, certified, frame.envelope, frame.contentId);
  }

  // ---------------------------------------------------------------- hops

  ghost function Holders(net: Net, s: State, id: string): set<Host>
  {
    set h | h in net.hosts && h in s.stores && s.stores[h].HasId(id)
  }

  predicate Counted(hops: Value, n: nat)
  {
    AtMost(Some(0.0), Number(hops)) && AtMost(Number(hops), Some(n as real))
  }

  lemma CountedOn(hops: Value, n: nat, more: nat)
    requires Counted(hops, n) && n <= more
    ensures Counted(hops, more)
    ensures n < more ==> Counted(PlusOne(hops), more)
    ensures Spent(hops) ==> n >= MESH_MAX_HOPS
    ensures !Negative(hops)
  {}

  /** Neither a frame nor a row is older, in hops, than the number of devices that hold the identifier. */
  ghost predicate HopsCounted(net: Net, w: World, id: string)
  {
    && RowsCounted(net, w.net, id)
    && (forall p :: p in w.net.flight && p.frame.contentId == id ==> Counted(p.frame.hops, |Holders(net, w.net, id)|))
    && (forall h :: (h, id, HopLimit) in w.past.refused ==> |Holders(net, w.net, id)| >= MESH_MAX_HOPS)
  }

  ghost predicate RowsCounted(net: Net, s: State, id: string)
  {
    forall h, q :: h in net.hosts && h in s.stores && q in s.stores[h].List() && q.contentId == id ==>
      Counted(q.hops, |Holders(net, s, id)|)
  }

  lemma HopLimitMeansHops(verify: Verifier, store: Store, quotas: Quotas, peer: string, frame: Frame, nowMs: int)
    requires Receive(verify, store, quotas, peer, frame, nowMs).status == Rejected(HopLimit)
    requires forall wire, id :: verify(wire, id) != Err(HopLimit)
    ensures Negative(frame.hops) || Spent(frame.hops)
  {}

  lemma HoldersGrow(net: Net, s: State, p: Packet, r: Receipt, id: string)
    requires WellFormed(net, s) && p in s.flight && Extends(s.stores[p.dst], r.store)
    ensures Holders(net, s, id) <= Holders(net, Apply(net, s, p, r), id)
    ensures |Holders(net, s, id)| <= |Holders(net, Apply(net, s, p, r), id)|
    ensures !s.stores[p.dst].HasId(id) && r.store.HasId(id) ==>
      |Holders(net, s, id)| + 1 <= |Holders(net, Apply(net, s, p, r), id)|
  {
    var a, b := Holders(net, s, id), Holders(net, Apply(net, s, p, r), id);
    forall h | h in a ensures h in b {
      if h == p.dst {
        HasIdExtends(s.stores[h], r.store, id);
      }
    }
    SubsetSize(a, b);
    if !s.stores[p.dst].HasId(id) && r.store.HasId(id) {
      SmallerSet(a, b, p.dst);
    }
  }

  lemma ApplyRows(net: Net, w: World, p: Packet, r: Receipt, id: string)
    requires WellFormed(net, w.net) && p in w.net.flight && HopsCounted(net, w, id)
    requires Extends(w.net.stores[p.dst], r.store)
    requires forall q :: q in r.store.List() ==>
      q in w.net.stores[p.dst].List() || (q.contentId == p.frame.contentId && q.hops == p.frame.hops)
    ensures RowsCounted(net, Apply(net, w.net, p, r), id)
  {
    var s' := Apply(net, w.net, p, r);
    HoldersGrow(net, w.net, p, r, id);
    var before, after := |Holders(net, w.net, id)|, |Holders(net, s', id)|;
    forall h, q | h in net.hosts && q in s'.stores[h].List() && q.contentId == id ensures Counted(q.hops, after) {
      CountedOn(q.hops, before, after);
    }
  }

  lemma ApplyFlightHops(net: Net, w: World, p: Packet, r: Receipt, id: string)
    requires WellFormed(net, w.net) && p in w.net.flight && HopsCounted(net, w, id)
    requires Extends(w.net.stores[p.dst], r.store)
    requires r.relay == if r.status.Stored? then Some(p.frame.(hops := PlusOne(p.frame.hops))) else None
    requires r.status.Stored? ==> !w.net.stores[p.dst].HasId(p.frame.contentId) && r.store.HasId(p.frame.contentId)
    ensures var s' := Apply(net, w.net, p, r);
      forall q :: q in s'.flight && q.frame.contentId == id ==> Counted(q.frame.hops, |Holders(net, s', id)|)
  {
    var s' := Apply(net, w.net, p, r);
    HoldersGrow(net, w.net, p, r, id);
    FlightAfter(net, w.net, p, r);
    var before, after := |Holders(net, w.net, id)|, |Holders(net, s', id)|;
    forall q | q in s'.flight && q.frame.contentId == id ensures Counted(q.frame.hops, after) {
      if q in w.net.flight {
        CountedOn(q.frame.hops, before, after);
      } else {
        CountedOn(p.frame.hops, before, after);
      }
    }
  }

  lemma ApplyHops(net: Net, w: World, p: Packet, r: Receipt, id: string)
    requires WellFormed(net, w.net) && p in w.net.flight && HopsCounted(net, w, id)
    requires Extends(w.net.stores[p.dst], r.store)
    requires forall q :: q in r.store.List() ==>
      q in w.net.stores[p.dst].List() || (q.contentId == p.frame.contentId && q.hops == p.frame.hops)
    requires r.relay == if r.status.Stored? then Some(p.frame.(hops := PlusOne(p.frame.hops))) else None
    requires r.status.Stored? ==> !w.net.stores[p.dst].HasId(p.frame.contentId) && r.store.HasId(p.frame.contentId)
    requires r.status == Rejected(HopLimit) ==> Negative(p.frame.hops) || Spent(p.frame.hops)
    ensures HopsCounted(net, ApplyIn(net, w, p, r), id)
  {
    ApplyRows(net, w, p, r, id);
    ApplyFlightHops(net, w, p, r, id);
    HoldersGrow(net, w.net, p, r, id);
    if r.status == Rejected(HopLimit) && p.frame.contentId == id {
      CountedOn(p.frame.hops, |Holders(net, w.net, id)|, |Holders(net, w.net, id)|);
    }
  }

  lemma LoseHops(net: Net, w: World, p: Packet, id: string)
    requires w.net.stores.Keys == net.hosts && HopsCounted(net, w, id)
    ensures HopsCounted(net, LoseIn(w, p), id)
  {
    assert Holders(net, LoseIn(w, p).net, id) == Holders(net, w.net, id);
  }

  lemma SendHops(sc: Scene, w: World, h: Host, g: Host, frame: Frame, id: string)
    requires w.net.stores.Keys == sc.net.hosts && HopsCounted(sc.net, w, id) && Sendable(sc, w, h, frame)
    ensures HopsCounted(sc.net, SendIn(sc, w, h, g, frame), id)
  {
    assert Holders(sc.net, SendIn(sc, w, h, g, frame).net, id) == Holders(sc.net, w.net, id);
  }

  lemma VerifierNeverBlamesHops(c: Checks, certified: CertificateCheck)
    ensures forall wire, id :: MeshVerifier(c, certified)(wire, id) != Err(HopLimit)
  {
    forall wire, id ensures MeshVerifier(c, certified)(wire, id) != Err(HopLimit) {
      HopsNotBlamed(c, certified, wire, id);
    }
  }

  lemma OutcomeHops(net: Net, c: Checks, certified: Host -> CertificateCheck, w: World, p: Packet, nowMs: int)
    requires Verifies(net, c, certified) && WellFormed(net, w.net) && p in w.net.flight
    ensures Outcome(net, w.net, p, nowMs).status == Rejected(HopLimit) ==>
      Negative(p.frame.hops) || Spent(p.frame.hops)
  {
    var verify := MeshVerifier(c, certified(p.dst));
    if Outcome(net, w.net, p, nowMs).status == Rejected(HopLimit) {
      VerifierNeverBlamesHops(c, certified(p.dst));
      HopLimitMeansHops(verify, w.net.stores[p.dst], w.net.quotas[p.dst], PeerId(net.peers(p.dst), p.src), p.frame,
                        nowMs);
    }
  }

  /** Such a run cannot go on for ever without new offers: the history does not change what a step is. */
  lemma WorldRunTerminates(net: Net, authentic: RowCheck, run: seq<World>, ids: set<string>, degree: nat)
    requires run != [] && IsWorldRun(net, run)
    requires WellFormed(net, run[0].net) && NetSound(net, authentic, run[0].net)
    requires Bounded(net, degree) && Named(run[0].net, ids)
    ensures |run| - 1 <= Work(net, run[0].net, ids, degree)
  {
    var states := seq(|run|, i requires 0 <= i < |run| => run[i].net);
    forall i | 0 <= i < |states| - 1 ensures Step(net, states[i], states[i + 1]) {
      assert WorldStep(net, run[i], run[i + 1]);
    }
    FloodTerminates(net, authentic, states, ids, degree);
  }
}
