/** What a router takes in, whom it charges for it, and how much one peer gets in. */
module MeshQuota {
  import opened Wrappers
  import opened Wire
  import opened Canonical
  import opened Decode
  import opened JsonNumbers
  import opened Mesh
  import opened Flood
  import Base64Url
  import Quota

  // ---------------------------------------------------------------- who is charged

  lemma {:induction false} UnknownPeerId(peers: seq<Peer>, from: Host)
    requires forall i :: 0 <= i < |peers| ==> peers[i].host != from
    ensures PeerId(peers, from) == from
  {
    if peers != [] {
      UnknownPeerId(peers[1..], from);
    }
  }

  lemma {:induction false} FirstPeerId(peers: seq<Peer>, from: Host, i: nat)
    requires i < |peers| && peers[i].host == from
    requires forall j :: 0 <= j < i ==> peers[j].host != from
    ensures PeerId(peers, from) == peers[i].id
  {
    if i > 0 {
      assert peers[1..][i - 1] == peers[i];
      FirstPeerId(peers[1..], from, i - 1);
    }
  }

  /** The first peer at the address, or the number of peers if there is none. */
  lemma FirstAt(peers: seq<Peer>, from: Host) returns (i: nat)
    ensures i <= |peers| && (forall j :: 0 <= j < i ==> peers[j].host != from)
    ensures i < |peers| ==> peers[i].host == from
  {
    i := 0;
    while i < |peers| && peers[i].host != from
      invariant i <= |peers| && forall j :: 0 <= j < i ==> peers[j].host != from
    {
      i := i + 1;
    }
  }

  /** The identity charged is the first known peer's at the address, and the address itself if there is none. */
  lemma PeerIdExactly(peers: seq<Peer>, from: Host) returns (i: nat)
    ensures i <= |peers| && (forall j :: 0 <= j < i ==> peers[j].host != from)
    ensures PeerId(peers, from) == if i < |peers| then peers[i].id else from
    ensures i < |peers| ==> peers[i].host == from
  {
    i := FirstAt(peers, from);
    if i < |peers| {
      FirstPeerId(peers, from, i);
    } else {
      UnknownPeerId(peers, from);
    }
  }

  lemma KnownPeerId(peers: seq<Peer>, q: Peer)
    requires q in peers && forall r :: r in peers && r.host == q.host ==> r.id == q.id
    ensures PeerId(peers, q.host) == q.id
  {
    var i := PeerIdExactly(peers, q.host);
    if i < |peers| {
      assert peers[i] in peers;
    }
  }

  /** The bytes of a frame that gets as far as being charged. */
  function Chargeable(frame: Frame, nowMs: int): Option<nat>
  {
    if Negative(frame.hops) || Spent(frame.hops) || Stale(frame, nowMs) then None
    else match Base64Url.Decode(frame.envelope)
      case None => None
      case Some(wire) => Some(|wire|)
  }

  /** The hops are a number that is below zero or eight and more. */
  predicate HopsOut(hops: Value)
  {
    Number(hops).Some? && (Number(hops).value < 0.0 || Number(hops).value >= 8.0)
  }

  /** Expired, more than 72 hours to live, or from more than five minutes ahead, as far as the times are there. */
  predicate TimesOut(frame: Frame, nowMs: int)
  {
    var origin, expires := Number(frame.originAtMs), Number(frame.expiresAtMs);
    || (expires.Some? && expires.value <= nowMs as real)
    || (expires.Some? && origin.Some? && expires.value - origin.value > 259_200_000.0)
    || (origin.Some? && origin.value > (nowMs + 300_000) as real)
  }

  /** What a verifier may blame: none of the checks that the router makes itself. */
  predicate OwnReason(reason: Reason)
  {
    reason.HopLimit? || reason.TtlExpired? || reason.MalformedBase64? || reason.QuotaExceeded?
  }

  ghost predicate MindsItsOwn(verify: Verifier)
  {
    forall wire, id :: verify(wire, id).Err? ==> !OwnReason(verify(wire, id).error)
  }

  lemma ProgramMindsItsOwn(c: Checks, certified: CertificateCheck)
    ensures MindsItsOwn(MeshVerifier(c, certified))
  {
    var verify := MeshVerifier(c, certified);
    forall wire, id | verify(wire, id).Err? ensures !OwnReason(verify(wire, id).error) {
      if DecodeSigned(c.nfc, c.utf8, wire).Ok? {
        DecodedMindsItsOwn(c, DecodeSigned(c.nfc, c.utf8, wire).value, wire, id);
      }
    }
  }

  lemma DecodedMindsItsOwn(c: Checks, e: Envelope, wire: seq<byte>, id: string)
    ensures var r := VerifyDecoded(c, e, wire, id, false); r.Err? ==> !OwnReason(r.error)
  {}

  /** The answer to a frame, case by case, in the order in which it is checked. */
  lemma ReceiveAnswers(verify: Verifier, store: Store, quotas: Quotas, peer: string, frame: Frame, nowMs: int)
    requires MindsItsOwn(verify)
    ensures var status := Receive(verify, store, quotas, peer, frame, nowMs).status;
      var wire := Base64Url.Decode(frame.envelope);
      && (status == Rejected(HopLimit) <==> HopsOut(frame.hops))
      && (status == Rejected(TtlExpired) <==> !HopsOut(frame.hops) && TimesOut(frame, nowMs))
      && (status == Rejected(MalformedBase64) <==>
            !HopsOut(frame.hops) && !TimesOut(frame, nowMs) && wire.None?)
      && (!HopsOut(frame.hops) && !TimesOut(frame, nowMs) && wire.Some? ==>
            var charged := Quota.Spend(WindowOf(quotas, peer), |wire.value|, nowMs).Some?;
            var verified := verify(wire.value, frame.contentId);
            && (status == Rejected(QuotaExceeded) <==> !charged)
            && (charged && verified.Err? ==> status == Rejected(verified.error))
            && (charged && verified.Ok? ==>
                  var held := exists r :: r in store.Plane(verified.value.plane) && r.contentId == frame.contentId;
                  status == if held then Duplicate else Stored))
  {}

  /** A stored frame becomes the last row of its plane, with what the frame said; nothing else changes. */
  lemma StoredRowIs(verify: Verifier, store: Store, quotas: Quotas, peer: string, frame: Frame, nowMs: int)
    requires Receive(verify, store, quotas, peer, frame, nowMs).status.Stored?
    ensures var after := Receive(verify, store, quotas, peer, frame, nowMs).store;
      var e := verify(Base64Url.Decode(frame.envelope).value, frame.contentId).value;
      var row := Row(frame.contentId, frame.envelope, e.plane, e.priority, frame.originAtMs, frame.expiresAtMs,
                     frame.hops, nowMs);
      after == (if e.plane == 1 then Store(store.forum + [row], store.signal)
                else Store(store.forum, store.signal + [row]))
  {}

  /**
   A frame is charged to its peer once its bounds hold and its text decodes, whether or not its bytes
   turn out to be genuine, and to nobody else.
   */
  lemma ReceiveCharges(verify: Verifier, store: Store, quotas: Quotas, peer: string, frame: Frame, nowMs: int,
                       other: string)
    ensures var r := Receive(verify, store, quotas, peer, frame, nowMs);
      var before, after := WindowOf(quotas, other), WindowOf(r.quotas, other);
      && (other != peer || Chargeable(frame, nowMs).None? ==> after == before)
      && (other == peer && Chargeable(frame, nowMs).Some? ==>
            after == Quota.After(before, Quota.Arrival(nowMs, Chargeable(frame, nowMs).value)))
      && (!r.status.Rejected? ==>
            Chargeable(frame, nowMs).Some?
            && Quota.Spend(WindowOf(quotas, peer), Chargeable(frame, nowMs).value, nowMs).Some?)
  {}

  /** Frames from two known peers with different ids never touch each other's allowance. */
  lemma PeersApart(verify: Verifier, store: Store, quotas: Quotas, peers: seq<Peer>, p: Peer, q: Peer, frame: Frame,
                   nowMs: int)
    requires p in peers && q in peers && p.id != q.id
    requires forall r :: r in peers && r.host == p.host ==> r.id == p.id
    requires forall r :: r in peers && r.host == q.host ==> r.id == q.id
    ensures var after := Receive(verify, store, quotas, PeerId(peers, p.host), frame, nowMs).quotas;
      && WindowOf(after, PeerId(peers, q.host)) == WindowOf(quotas, PeerId(peers, q.host))
      && PeerId(peers, q.host) == q.id
      && forall other :: other != p.id ==> WindowOf(after, other) == WindowOf(quotas, other)
  {
    KnownPeerId(peers, p);
    KnownPeerId(peers, q);
    forall other | other != p.id
      ensures WindowOf(Receive(verify, store, quotas, p.id, frame, nowMs).quotas, other) == WindowOf(quotas, other)
    {
      ReceiveCharges(verify, store, quotas, p.id, frame, nowMs, other);
    }
  }

  /** In the network: a delivery is charged to the peer it came from, by the device it came to. */
  lemma DeliveryCharges(net: Net, s: State, p: Packet, nowMs: int, q: Peer, other: string, h: Host)
    requires p.dst in s.stores && p.dst in s.quotas && h in s.quotas
    requires q in net.peers(p.dst) && q.host == p.src
    requires forall r :: r in net.peers(p.dst) && r.host == p.src ==> r.id == q.id
    ensures var after := Deliver(net, s, p, nowMs).quotas;
      h in after && WindowOf(after[h], other) == (
        if h == p.dst && other == q.id && Chargeable(p.frame, nowMs).Some?
        then Quota.After(WindowOf(s.quotas[h], other), Quota.Arrival(nowMs, Chargeable(p.frame, nowMs).value))
        else WindowOf(s.quotas[h], other))
  {
    KnownPeerId(net.peers(p.dst), q);
    ReceiveCharges(net.verify(p.dst), s.stores[p.dst], s.quotas[p.dst], q.id, p.frame, nowMs, other);
  }

  // ---------------------------------------------------------------- how much gets in

  datatype Incoming = Incoming(peer: string, frame: Frame, atMs: int)

  predicate Forward(run: seq<Incoming>, start: int)
    decreases |run|
  {
    run == [] || (start <= run[0].atMs && Forward(run[1..], run[0].atMs))
  }

  /** What one peer gets past the checks of a router between two times: frames, and their bytes. */
  function Taken(verify: Verifier, store: Store, quotas: Quotas, run: seq<Incoming>, peer: string, from: int,
                 until: int): (nat, nat)
    decreases |run|
  {
    if run == [] then (0, 0)
    else
      var a := run[0];
      var r := Receive(verify, store, quotas, a.peer, a.frame, a.atMs);
      var rest := Taken(verify, r.store, r.quotas, run[1..], peer, from, until);
      if a.peer == peer && !r.status.Rejected? && from <= a.atMs < until
      then (rest.0 + 1, rest.1 + match Base64Url.Decode(a.frame.envelope) case None => 0 case Some(wire) => |wire|)
      else rest
  }

  /** The frames one peer is charged for. */
  function Charges(run: seq<Incoming>, peer: string): seq<Quota.Arrival>
    decreases |run|
  {
    if run == [] then []
    else
      var size := Chargeable(run[0].frame, run[0].atMs);
      (if run[0].peer == peer && size.Some? then [Quota.Arrival(run[0].atMs, size.value)] else [])
      + Charges(run[1..], peer)
  }

  lemma {:induction false} ChargesForward(run: seq<Incoming>, peer: string, start: int)
    requires Forward(run, start)
    ensures Quota.Forward(Charges(run, peer), start)
    decreases |run|
  {
    if run != [] {
      ChargesForward(run[1..], peer, run[0].atMs);
      var rest := Charges(run[1..], peer);
      Quota.ForwardLater(rest, run[0].atMs, start);
      var size := Chargeable(run[0].frame, run[0].atMs);
      if run[0].peer == peer && size.Some? {
        var first := Quota.Arrival(run[0].atMs, size.value);
        assert ([first] + rest)[1..] == rest;
      } else {
        assert Charges(run, peer) == rest;
      }
    }
  }

  lemma AdmittedStep(w: Option<Quota.Window>, a: Quota.Arrival, rest: seq<Quota.Arrival>, from: int, until: int)
    ensures var tail := Quota.Admitted(Quota.After(w, a), rest, from, until);
      Quota.Admitted(w, [a] + rest, from, until) ==
        if Quota.Spend(w, a.bytes, a.atMs).Some? && from <= a.atMs < until then (tail.0 + 1, tail.1 + a.bytes) else tail
  {
    assert ([a] + rest)[1..] == rest;
  }

  /** A peer gets no more in than its allowance admits. */
  lemma {:induction false} TakenWithin(verify: Verifier, store: Store, quotas: Quotas, run: seq<Incoming>,
                                       peer: string, from: int, until: int)
    ensures var taken := Taken(verify, store, quotas, run, peer, from, until);
      var admitted := Quota.Admitted(WindowOf(quotas, peer), Charges(run, peer), from, until);
      taken.0 <= admitted.0 && taken.1 <= admitted.1
    decreases |run|
  {
    if run != [] {
      var a := run[0];
      var r := Receive(verify, store, quotas, a.peer, a.frame, a.atMs);
      TakenWithin(verify, r.store, r.quotas, run[1..], peer, from, until);
      ReceiveCharges(verify, store, quotas, a.peer, a.frame, a.atMs, peer);
      var size, rest := Chargeable(a.frame, a.atMs), Charges(run[1..], peer);
      if a.peer == peer && size.Some? {
        AdmittedStep(WindowOf(quotas, peer), Quota.Arrival(a.atMs, size.value), rest, from, until);
      } else {
        assert Charges(run, peer) == rest;
      }
    }
  }

  /**
   Whatever frames arrive and whoever sends them, in any hour no more than 1999 of one peer are stored
   or found to be held already, and no more than 16 MiB.
   */
  lemma PeerIsLimited(verify: Verifier, store: Store, quotas: Quotas, run: seq<Incoming>, peer: string, start: int,
                      from: int, until: int)
    requires Quota.Valid(WindowOf(quotas, peer)) && Forward(run, start) && until - from <= 3_600_000
    ensures Taken(verify, store, quotas, run, peer, from, until).0 <= 1999
    ensures Taken(verify, store, quotas, run, peer, from, until).1 <= 16_777_216
  {
    TakenWithin(verify, store, quotas, run, peer, from, until);
    ChargesForward(run, peer, start);
    Quota.SlidingBound(WindowOf(quotas, peer), Charges(run, peer), start, from, until);
  }
}
