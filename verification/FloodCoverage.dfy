/**
 How far a flood gets over whole histories: from a network at rest, any number of devices send what they
 hold or bring in to their peers, at any time, while packets are delivered or lost in any order.
 */
module FloodCoverage {
  import opened Wrappers
  import opened Canonical
  import opened Decode
  import opened JsonNumbers
  import opened Mesh
  import opened MeshRows
  import opened Flood
  import opened FloodReach
  import opened ContentId

  // ---------------------------------------------------------------- at rest

  /** Nothing about this identifier was lost, and no device refused it for age, quota or certificate. */
  ghost predicate Unhindered(w: World, id: string)
  {
    && (forall h :: (h, id) !in w.past.lost)
    && (forall h, reason :: (h, id, reason) in w.past.refused ==>
      reason != TtlExpired && reason != QuotaExceeded && reason != CertInvalid)
  }

  /** What has become of a frame sent to a peer once nothing is in flight. */
  ghost predicate Served(w: World, frame: Frame, peer: Host)
  {
    && peer in w.net.stores
    && (w.net.stores[peer].HasId(frame.contentId)
      || (Spent(frame.hops) && (peer, frame.contentId, HopLimit) in w.past.refused))
  }

  lemma PursuedServed(w: World, h: Host, frame: Frame, peer: Host)
    requires peer in w.net.stores && Pursued(w, h, frame, peer)
    requires w.net.flight == multiset{} && Unhindered(w, frame.contentId)
    ensures Served(w, frame, peer)
  {
    assert Packet(h, peer, frame) !in w.net.flight;
  }

  lemma RelayServed(sc: Scene, w: World, h: Host, id: string, peer: Peer)
    requires Inv(sc, w) && w.net.flight == multiset{} && Unhindered(w, id)
    requires (h, id) in w.past.relays && peer in sc.net.peers(h)
    ensures peer.host == w.past.relays[(h, id)].from || Served(w, w.past.relays[(h, id)].frame, peer.host)
  {
    var o := w.past.relays[(h, id)];
    assert RelayKept(sc, w, (h, id), o);
    if peer.host != o.from {
      PursuedServed(w, h, o.frame, peer.host);
    }
  }

  lemma SentServed(sc: Scene, w: World, h: Host, id: string, g: Host)
    requires Inv(sc, w) && w.net.flight == multiset{} && Unhindered(w, id) && (h, id, g) in w.past.sent
    ensures Served(w, w.past.sent[(h, id, g)], g) && w.past.sent[(h, id, g)].contentId == id
  {
    assert SentKept(sc, w, (h, id, g), w.past.sent[(h, id, g)]);
    PursuedServed(w, h, w.past.sent[(h, id, g)], g);
  }

  /** The device has passed the identifier on when it came, or has sent it to each of its peers since. */
  ghost predicate Shared(net: Net, w: World, h: Host, id: string)
  {
    (h, id) in w.past.relays || forall q :: q in net.peers(h) ==> (h, id, q.host) in w.past.sent
  }

  /** So has every device that held the identifier from the start or brings it in. */
  ghost predicate SourcesShared(sc: Scene, w: World, id: string)
  {
    forall h :: h in sc.net.hosts && ((h, id) in sc.seeded || (h, id) in sc.origins) ==> Shared(sc.net, w, h, id)
  }

  /** Every device that ever refused this identifier for its hop count has it. */
  ghost predicate HopsSuffice(origins: set<Key>, w: World, id: string)
  {
    forall h :: (h, id, HopLimit) in w.past.refused ==> Has(origins, w, h, id)
  }

  lemma NextOnPath(sc: Scene, w: World, id: string, h: Host, g: Host)
    requires Inv(sc, w) && w.net.flight == multiset{}
    requires Unhindered(w, id) && HopsSuffice(sc.origins, w, id) && SourcesShared(sc, w, id)
    requires Has(sc.origins, w, h, id) && LinksTo(sc.net, h, g)
    ensures Has(sc.origins, w, g, id)
  {
    var q :| q in sc.net.peers(h) && q.host == g;
    if (h, id) in w.past.relays {
      assert RelayKept(sc, w, (h, id), w.past.relays[(h, id)]);
      RelayServed(sc, w, h, id, q);
    } else {
      assert Shared(sc.net, w, h, id);
      SentServed(sc, w, h, id, g);
    }
  }

  lemma {:induction false} FloodReaches(sc: Scene, w: World, id: string, path: seq<Host>)
    requires Inv(sc, w) && w.net.flight == multiset{}
    requires Unhindered(w, id) && HopsSuffice(sc.origins, w, id) && SourcesShared(sc, w, id)
    requires IsPath(sc.net, path) && Has(sc.origins, w, path[0], id)
    ensures Has(sc.origins, w, path[|path| - 1], id)
    decreases |path|
  {
    if |path| > 1 {
      assert LinksTo(sc.net, path[0], path[0 + 1]);
      NextOnPath(sc, w, id, path[0], path[1]);
      var rest := path[1..];
      forall i | 0 <= i < |rest| - 1 ensures LinksTo(sc.net, rest[i], rest[i + 1]) {
        assert LinksTo(sc.net, path[i + 1], path[i + 1 + 1]);
      }
      FloodReaches(sc, w, id, rest);
    }
  }

  /** Every path of peers from a device that has the identifier leads to devices that have it. */
  ghost predicate Covered(sc: Scene, w: World, id: string)
  {
    forall path :: IsPath(sc.net, path) && Has(sc.origins, w, path[0], id) ==>
      Has(sc.origins, w, path[|path| - 1], id)
  }

  /** At rest the flood has covered the network exactly when the hops sufficed. */
  lemma CoveredExactly(sc: Scene, w: World, id: string)
    requires Inv(sc, w) && w.net.flight == multiset{}
    requires Unhindered(w, id) && SourcesShared(sc, w, id)
    ensures Covered(sc, w, id) <==> HopsSuffice(sc.origins, w, id)
  {
    if HopsSuffice(sc.origins, w, id) {
      forall path | IsPath(sc.net, path) && Has(sc.origins, w, path[0], id)
        ensures Has(sc.origins, w, path[|path| - 1], id)
      {
        FloodReaches(sc, w, id, path);
      }
    }
    if Covered(sc, w, id) {
      forall h | (h, id, HopLimit) in w.past.refused ensures Has(sc.origins, w, h, id) {
        assert Refuser(sc, w, h, id);
        var s :| Has(sc.origins, w, s, id) && LinksTo(sc.net, s, h);
        var path := [s, h];
        assert IsPath(sc.net, path);
        assert path[|path| - 1] == h;
      }
    }
  }

  /**
   In a network of at most eight devices nobody is ever cut off by the hop limit: whoever refuses
   a frame for its hops holds it already.
   */
  lemma SmallNetworkHopsSuffice(sc: Scene, w: World, id: string)
    requires Inv(sc, w) && HopsCounted(sc.net, w, id) && |sc.net.hosts| <= MESH_MAX_HOPS
    ensures forall h :: (h, id, HopLimit) in w.past.refused ==> h in sc.net.hosts && w.net.stores[h].HasId(id)
    ensures HopsSuffice(sc.origins, w, id)
  {
    var holders := Holders(sc.net, w.net, id);
    forall h | (h, id, HopLimit) in w.past.refused
      ensures h in sc.net.hosts && w.net.stores[h].HasId(id)
    {
      assert Refuser(sc, w, h, id);
      if h !in holders {
        SmallerSet(holders, sc.net.hosts, h);
      }
    }
  }

  // ---------------------------------------------------------------- histories

  /** A network at rest. */
  ghost predicate Quiet(net: Net, w: World)
  {
    WellFormed(net, w.net) && w.net.flight == multiset{} && w.past == History(map[], map[], {}, {})
  }

  ghost function Held(net: Net, s: State): set<Key>
    requires s.stores.Keys == net.hosts
  {
    set h, r | h in net.hosts && r in s.stores[h].List() :: (h, r.contentId)
  }

  /** Successive worlds from one at rest, of which the scene says what is held there. */
  ghost predicate IsHistory(sc: Scene, history: seq<World>)
  {
    && history != [] && Quiet(sc.net, history[0]) && sc.seeded == Held(sc.net, history[0].net)
    && forall i :: 0 <= i < |history| - 1 ==> Move(sc, history[i], history[i + 1])
  }

  lemma QuietInv(sc: Scene, w: World)
    requires Quiet(sc.net, w) && sc.seeded == Held(sc.net, w.net)
    ensures Inv(sc, w)
  {
    forall h, i | h in sc.net.hosts && w.net.stores[h].HasId(i) ensures (h, i) in Held(sc.net, w.net) {
      var r :| r in w.net.stores[h].List() && r.contentId == i;
    }
  }

  /** Everything that is kept by every step. */
  ghost predicate Ok(sc: Scene, authentic: RowCheck, w: World)
  {
    Inv(sc, w) && NetSound(sc.net, authentic, w.net)
  }

  lemma LoseOk(sc: Scene, authentic: RowCheck, w: World, p: Packet)
    requires Ok(sc, authentic, w) && p in w.net.flight
    ensures Ok(sc, authentic, LoseIn(w, p))
  {
    LoseInv(sc, w, p);
  }

  lemma DeliverOk(sc: Scene, c: Checks, certified: Host -> CertificateCheck, w: World, p: Packet, nowMs: int)
    requires Verifies(sc.net, c, certified) && sc.genuine == GenuineFrames(c)
    requires Ok(sc, AuthenticRows(c), w) && p in w.net.flight
    ensures Ok(sc, AuthenticRows(c), DeliverIn(sc.net, w, p, nowMs))
  {
    OutcomeTelling(c, certified(p.dst), w.net.stores[p.dst], w.net.quotas[p.dst], PeerId(sc.net.peers(p.dst), p.src),
                   p.frame, nowMs);
    OutcomePossible(sc.net, AuthenticRows(c), w.net, p, nowMs);
    ApplyOk(sc, AuthenticRows(c), w, p, Outcome(sc.net, w.net, p, nowMs));
  }

  lemma ApplyOk(sc: Scene, authentic: RowCheck, w: World, p: Packet, r: Receipt)
    requires Ok(sc, authentic, w) && p in w.net.flight
    requires Telling(sc.genuine, w.net.stores[p.dst], p.frame, r) && Possible(authentic, w.net, p, r)
    ensures Ok(sc, authentic, ApplyIn(sc.net, w, p, r))
  {
    ApplyInv(sc, w, p, r);
    ApplySound(sc.net, authentic, w.net, p, r);
  }

  lemma DeliverHops(sc: Scene, c: Checks, certified: Host -> CertificateCheck, w: World, p: Packet, nowMs: int,
                    id: string)
    requires Verifies(sc.net, c, certified) && sc.genuine == GenuineFrames(c)
    requires Ok(sc, AuthenticRows(c), w) && p in w.net.flight && HopsCounted(sc.net, w, id)
    ensures HopsCounted(sc.net, DeliverIn(sc.net, w, p, nowMs), id)
  {
    OutcomeTelling(c, certified(p.dst), w.net.stores[p.dst], w.net.quotas[p.dst], PeerId(sc.net.peers(p.dst), p.src),
                   p.frame, nowMs);
    OutcomePossible(sc.net, AuthenticRows(c), w.net, p, nowMs);
    OutcomeHops(sc.net, c, certified, w, p, nowMs);
    ApplyHops(sc.net, w, p, Outcome(sc.net, w.net, p, nowMs), id);
  }

  lemma MoveOk(sc: Scene, c: Checks, certified: Host -> CertificateCheck, w: World, w': World, id: string)
    requires Verifies(sc.net, c, certified) && sc.genuine == GenuineFrames(c) && Move(sc, w, w')
    requires Ok(sc, AuthenticRows(c), w)
    ensures Ok(sc, AuthenticRows(c), w')
    ensures HopsCounted(sc.net, w, id) ==> HopsCounted(sc.net, w', id)
  {
    if WorldStep(sc.net, w, w') {
      var p :| p in w.net.flight && p.dst in w.net.stores && p.dst in w.net.quotas
        && (w' == LoseIn(w, p) || exists nowMs :: w' == DeliverIn(sc.net, w, p, nowMs));
      if w' == LoseIn(w, p) {
        LoseOk(sc, AuthenticRows(c), w, p);
        if HopsCounted(sc.net, w, id) {
          LoseHops(sc.net, w, p, id);
        }
      } else {
        var nowMs :| w' == DeliverIn(sc.net, w, p, nowMs);
        DeliverOk(sc, c, certified, w, p, nowMs);
        if HopsCounted(sc.net, w, id) {
          DeliverHops(sc, c, certified, w, p, nowMs, id);
        }
      }
    } else {
      SendOk(sc, AuthenticRows(c), w, w', id);
    }
  }

  lemma SendOk(sc: Scene, authentic: RowCheck, w: World, w': World, id: string)
    requires Ok(sc, authentic, w) && Sending(sc, w, w')
    ensures Ok(sc, authentic, w')
    ensures HopsCounted(sc.net, w, id) ==> HopsCounted(sc.net, w', id)
  {
    var h: Host, q: Peer, frame: Frame :| h in sc.net.hosts && q in sc.net.peers(h) && Sendable(sc, w, h, frame)
      && w' == SendIn(sc, w, h, q.host, frame);
    SendStepOk(sc, authentic, w, h, q, frame, id);
  }

  lemma SendStepOk(sc: Scene, authentic: RowCheck, w: World, h: Host, q: Peer, frame: Frame, id: string)
    requires Ok(sc, authentic, w) && h in sc.net.hosts && q in sc.net.peers(h) && Sendable(sc, w, h, frame)
    ensures Ok(sc, authentic, SendIn(sc, w, h, q.host, frame))
    ensures HopsCounted(sc.net, w, id) ==> HopsCounted(sc.net, SendIn(sc, w, h, q.host, frame), id)
  {
    SendInv(sc, w, h, q, frame);
    if HopsCounted(sc.net, w, id) {
      SendHops(sc, w, h, q.host, frame, id);
    }
  }

  lemma {:induction false} MovesOk(sc: Scene, c: Checks, certified: Host -> CertificateCheck, history: seq<World>,
                                   n: nat, id: string)
    requires Verifies(sc.net, c, certified) && sc.genuine == GenuineFrames(c)
    requires IsHistory(sc, history) && n < |history| && Ok(sc, AuthenticRows(c), history[0])
    ensures Ok(sc, AuthenticRows(c), history[n])
    ensures HopsCounted(sc.net, history[0], id) ==> HopsCounted(sc.net, history[n], id)
  {
    if n > 0 {
      MovesOk(sc, c, certified, history, n - 1, id);
      assert Move(sc, history[n - 1], history[n - 1 + 1]);
      MoveOk(sc, c, certified, history[n - 1], history[n], id);
    }
  }

  /** Devices that run the program, from a state in which each is sound. */
  ghost predicate Runs(sc: Scene, c: Checks, certified: Host -> CertificateCheck, history: seq<World>)
  {
    && CollisionFree(c.sha) && Verifies(sc.net, c, certified) && sc.genuine == GenuineFrames(c)
    && IsHistory(sc, history)
    && forall h :: h in sc.net.hosts ==> Sound(AuthenticRows(c), history[0].net.stores[h])
  }

  lemma HistoryOk(sc: Scene, c: Checks, certified: Host -> CertificateCheck, history: seq<World>, id: string)
    requires Runs(sc, c, certified, history)
    ensures Ok(sc, AuthenticRows(c), history[|history| - 1])
    ensures RowsCounted(sc.net, history[0].net, id) ==> HopsCounted(sc.net, history[|history| - 1], id)
  {
    StartOk(sc, c, certified, history);
    MovesOk(sc, c, certified, history, |history| - 1, id);
  }

  lemma StartOk(sc: Scene, c: Checks, certified: Host -> CertificateCheck, history: seq<World>)
    requires Runs(sc, c, certified, history)
    ensures Ok(sc, AuthenticRows(c), history[0])
  {
    ProgramIsSound(sc.net, c, certified, history[0].net);
    QuietInv(sc, history[0]);
  }

  /** Nothing is in flight any more, and nothing but hops stood in the way of the identifier. */
  ghost predicate Settles(history: seq<World>, id: string)
    requires history != []
  {
    history[|history| - 1].net.flight == multiset{} && Unhindered(history[|history| - 1], id)
  }

  /**
   Quiescent completeness, in a network of any size and whatever devices sent and when: once nothing is in
   flight, every peer a frame was passed on or sent to holds it, or refused it because its hops were used
   up, provided nothing was lost and neither age, quota nor a missing certificate made a device refuse it.
   A device passes a frame on to all its peers but the one it came from.
   */
  lemma QuiescentComplete(sc: Scene, c: Checks, certified: Host -> CertificateCheck, history: seq<World>, h: Host,
                          id: string, peer: Peer)
    requires Runs(sc, c, certified, history) && Settles(history, id) && peer in sc.net.peers(h)
    ensures var end := history[|history| - 1];
      && ((h, id) in end.past.relays ==>
        peer.host == end.past.relays[(h, id)].from || Served(end, end.past.relays[(h, id)].frame, peer.host))
      && ((h, id, peer.host) in end.past.sent ==> Served(end, end.past.sent[(h, id, peer.host)], peer.host))
      && (h in end.net.stores && end.net.stores[h].HasId(id) ==>
        (h, id) in end.past.relays || (h, id) in sc.seeded)
  {
    var end := history[|history| - 1];
    HistoryOk(sc, c, certified, history, id);
    if (h, id) in end.past.relays {
      RelayServed(sc, end, h, id, peer);
    }
    if (h, id, peer.host) in end.past.sent {
      SentServed(sc, end, h, id, peer.host);
    }
    if h in end.net.stores {
      assert Accounted(sc, end, h);
    }
  }

  /**
   The flood reaches everyone its hops allow: at rest every device at the end of a path of peers from one
   that has the identifier has it too, exactly when whoever refused it for its hops has it. Any number of
   devices, and of frames sent and rows offered again; any interleaving, any clocks. What it takes is that
   the devices the identifier came from have by now sent it to each of their peers.
   */
  lemma FloodCovers(sc: Scene, c: Checks, certified: Host -> CertificateCheck, history: seq<World>, id: string)
    requires Runs(sc, c, certified, history) && Settles(history, id)
    requires SourcesShared(sc, history[|history| - 1], id)
    ensures var end := history[|history| - 1];
      Covered(sc, end, id) <==> HopsSuffice(sc.origins, end, id)
  {
    HistoryOk(sc, c, certified, history, id);
    CoveredExactly(sc, history[|history| - 1], id);
  }

  /**
   In a network of at most eight devices the hops always suffice, so the flood reaches everyone, if the
   rows held at the start are no older in hops than the number of devices that hold them.
   */
  lemma SmallNetworkCovers(sc: Scene, c: Checks, certified: Host -> CertificateCheck, history: seq<World>, id: string)
    requires Runs(sc, c, certified, history) && Settles(history, id)
    requires SourcesShared(sc, history[|history| - 1], id)
    requires |sc.net.hosts| <= 8
    requires RowsCounted(sc.net, history[0].net, id)
    ensures Covered(sc, history[|history| - 1], id)
  {
    HistoryOk(sc, c, certified, history, id);
    SmallNetworkHopsSuffice(sc, history[|history| - 1], id);
    CoveredExactly(sc, history[|history| - 1], id);
  }
}
