/** What the two stores of a device hold, whatever arrives and whoever sends it. */
module MeshRows {
  import opened Wrappers
  import opened Wire
  import opened Canonical
  import opened Decode
  import opened ContentId
  import opened JsonNumbers
  import opened Mesh
  import Base64Url
  import Quota

  ghost predicate DistinctIds(rows: seq<Row>)
  {
    forall i, j :: 0 <= i < j < |rows| ==> rows[i].contentId != rows[j].contentId
  }

  /** A judgement on rows; the one that matters is whether a row's identifier matches its bytes. */
  type RowCheck = Row -> bool

  ghost function AuthenticRows(c: Checks): RowCheck
  {
    r => Authentic(c, r)
  }

  /** Authentic rows whose envelope has the certificate its domain asks for, as this device sees it. */
  ghost function CertifiedRows(c: Checks, certified: CertificateCheck): RowCheck
  {
    r => Authentic(c, r) && Certificated(c, certified, EnvelopeIn(c, r))
  }

  /** The envelope in the bytes of an authentic row. */
  ghost function EnvelopeIn(c: Checks, r: Row): Envelope
    requires Authentic(c, r)
  {
    DecodeSigned(c.nfc, c.utf8, Base64Url.Decode(r.envelope).value).value
  }

  /** Rows that pass the check and share an identifier lie in the same plane. */
  ghost predicate IdsDeterminePlane(authentic: RowCheck)
  {
    forall q, r :: authentic(q) && authentic(r) && q.contentId == r.contentId && q.plane > 0 && r.plane > 0
      ==> q.plane == r.plane
  }

  /** Authentic rows, each in the store of its plane, no identifier twice on the device. */
  ghost predicate Sound(authentic: RowCheck, s: Store)
  {
    && (forall r :: r in s.forum ==> authentic(r) && r.plane == FORUM)
    && (forall r :: r in s.signal ==> authentic(r) && r.plane == SIGNAL)
    && DistinctIds(s.List())
  }

  /** What holds of every row that came in through `Receive`. */
  ghost predicate ReceivedRow(authentic: RowCheck, r: Row)
  {
    && authentic(r)
    && !Negative(r.hops) && !Spent(r.hops)
    && !Stale(Reoffer(r), r.receivedAtMs)
    && r.priority != BULK
    && (r.plane == FORUM || r.plane == SIGNAL)
  }

  ghost predicate AllReceived(authentic: RowCheck, s: Store)
  {
    forall r :: r in s.List() ==> ReceivedRow(authentic, r)
  }

  lemma SamePlaneSlot(nfc: Nfc, d: Envelope, e: Envelope)
    requires CanonicalBytes(nfc, d) == CanonicalBytes(nfc, e) && d.plane > 0 && e.plane > 0
    ensures d.plane == e.plane
  {
    SlotsNumbered(nfc, d);
    SlotsNumbered(nfc, e);
    EmitInjective(Slots(nfc, d), Slots(nfc, e), 1);
    assert Slots(nfc, d)[1] == Slots(nfc, e)[1];
  }

  lemma SameIdSamePlane(c: Checks, q: Row, r: Row)
    requires CollisionFree(c.sha)
    requires Authentic(c, q) && Authentic(c, r) && q.plane > 0 && r.plane > 0
    requires q.contentId == r.contentId
    ensures q.plane == r.plane
  {
    var d := DecodeSigned(c.nfc, c.utf8, Base64Url.Decode(q.envelope).value).value;
    var e := DecodeSigned(c.nfc, c.utf8, Base64Url.Decode(r.envelope).value).value;
    PrefixedInjective(PREFIX_CONTENT, c.sha(CanonicalBytes(c.nfc, d)), c.sha(CanonicalBytes(c.nfc, e)));
    SamePlaneSlot(c.nfc, d, e);
  }

  /** The plane is part of the content, so with a collision-free hash the identifier determines it. */
  lemma AuthenticIdsDeterminePlane(c: Checks)
    requires CollisionFree(c.sha)
    ensures IdsDeterminePlane(AuthenticRows(c))
  {
    forall q, r | Authentic(c, q) && Authentic(c, r) && q.contentId == r.contentId && q.plane > 0 && r.plane > 0
      ensures q.plane == r.plane
    {
      SameIdSamePlane(c, q, r);
    }
  }

  lemma CertifiedIdsDeterminePlane(c: Checks, certified: CertificateCheck)
    requires CollisionFree(c.sha)
    ensures IdsDeterminePlane(CertifiedRows(c, certified))
  {
    AuthenticIdsDeterminePlane(c);
    var authentic := AuthenticRows(c);
    forall q, r | CertifiedRows(c, certified)(q) && CertifiedRows(c, certified)(r)
        && q.contentId == r.contentId && q.plane > 0 && r.plane > 0
      ensures q.plane == r.plane
    {
      assert authentic(q) && authentic(r);
    }
  }

  lemma DistinctAppend(rows: seq<Row>, r: Row)
    requires DistinctIds(rows) && forall q :: q in rows ==> q.contentId != r.contentId
    ensures DistinctIds(rows + [r])
  {}

  lemma DistinctInsert(a: seq<Row>, r: Row, b: seq<Row>)
    requires DistinctIds(a + b) && forall q :: q in a + b ==> q.contentId != r.contentId
    ensures DistinctIds(a + [r] + b)
  {
    var rows, all := a + b, a + [r] + b;
    forall i, j | 0 <= i < j < |all|
      ensures all[i].contentId != all[j].contentId
    {
      assert i != |a| ==> all[i] == rows[if i < |a| then i else i - 1];
      assert j != |a| ==> all[j] == rows[if j < |a| then j else j - 1];
      assert i != |a| ==> all[i] in rows;
      assert j != |a| ==> all[j] in rows;
    }
  }

  /**
   Storing an authentic row keeps the device sound. Duplicates are looked for in one plane only;
   that this suffices for the whole device rests on identifiers determining the plane.
   */
  lemma PutKeepsSound(authentic: RowCheck, s: Store, row: Row)
    requires IdsDeterminePlane(authentic)
    requires Sound(authentic, s) && authentic(row) && (row.plane == FORUM || row.plane == SIGNAL)
    ensures Sound(authentic, Put(s, row).0)
    ensures Put(s, row).1.Stored? ==> !s.HasId(row.contentId)
    ensures Put(s, row).1 == Duplicate ==> s.HasId(row.contentId)
    ensures Put(s, row).1.Stored? || Put(s, row).1 == Duplicate
  {
    var (s', status) := Put(s, row);
    if status.Stored? {
      assert forall q :: q in s.List() ==> q.contentId != row.contentId;
      if row.plane == FORUM {
        DistinctInsert(s.forum, row, s.signal);
      } else {
        DistinctAppend(s.List(), row);
        assert s'.List() == s.List() + [row];
      }
    } else {
      var i :| 0 <= i < |s.Plane(row.plane)| && s.Plane(row.plane)[i].contentId == row.contentId;
      assert s.Plane(row.plane)[i] in s.List();
    }
  }

  /** Rows are only ever added: what was stored stays as it was. */
  ghost predicate Extends(s: Store, s': Store)
  {
    s.forum <= s'.forum && s.signal <= s'.signal
  }

  /** Whatever the verifier lets through makes an authentic row of one of the two planes, never BULK. */
  ghost predicate Trustworthy(verify: Verifier, authentic: RowCheck)
  {
    forall frame: Frame, nowMs: int :: TrustworthyFrame(verify, authentic, frame, nowMs)
  }

  ghost predicate TrustworthyFrame(verify: Verifier, authentic: RowCheck, frame: Frame, nowMs: int)
  {
    match Base64Url.Decode(frame.envelope)
    case None => true
    case Some(wire) =>
      match verify(wire, frame.contentId)
      case Err(_) => true
      case Ok(e) => TrustworthyRow(authentic, RowOf(frame, e, nowMs))
  }

  ghost predicate TrustworthyRow(authentic: RowCheck, row: Row)
  {
    authentic(row) && (row.plane == FORUM || row.plane == SIGNAL) && row.priority != BULK
  }

  lemma VerifiedRow(c: Checks, certified: CertificateCheck, frame: Frame, nowMs: int, e: Envelope)
    requires Base64Url.Decode(frame.envelope).Some?
    requires MeshVerifier(c, certified)(Base64Url.Decode(frame.envelope).value, frame.contentId) == Ok(e)
    ensures TrustworthyRow(CertifiedRows(c, certified), RowOf(frame, e, nowMs))
  {
    VerifiedExactly(c, certified, Base64Url.Decode(frame.envelope).value, frame.contentId, false, e);
    DecodedRow(c, certified, RowOf(frame, e, nowMs), Base64Url.Decode(frame.envelope).value, e);
  }

  lemma DecodedRow(c: Checks, certified: CertificateCheck, row: Row, wire: seq<byte>, e: Envelope)
    requires Base64Url.Decode(row.envelope) == Some(wire) && DecodeSigned(c.nfc, c.utf8, wire) == Ok(e)
    requires PassesChecks(c, e, |wire|, row.contentId) && Certificated(c, certified, e)
    requires row.plane == e.plane && row.priority == e.priority
    ensures CertifiedRows(c, certified)(row) && (row.plane == FORUM || row.plane == SIGNAL)
  {}

  /**
   The program's verifier lets through only what makes a row that passes every check: signature, size,
   version, plane and priority of the domain, identifier and, where the domain asks for it, certificate.
   */
  lemma MeshVerifierTrustworthy(c: Checks, certified: CertificateCheck)
    ensures Trustworthy(MeshVerifier(c, certified), CertifiedRows(c, certified))
    ensures Trustworthy(MeshVerifier(c, certified), AuthenticRows(c))
  {
    var verify := MeshVerifier(c, certified);
    var check, weaker := CertifiedRows(c, certified), AuthenticRows(c);
    forall frame: Frame, nowMs: int
      ensures TrustworthyFrame(verify, check, frame, nowMs) && TrustworthyFrame(verify, weaker, frame, nowMs)
    {
      var wire := Base64Url.Decode(frame.envelope);
      if wire.Some? && verify(wire.value, frame.contentId).Ok? {
        var e := verify(wire.value, frame.contentId).value;
        VerifiedRow(c, certified, frame, nowMs, e);
        CertifiedIsAuthentic(c, certified, RowOf(frame, e, nowMs));
      }
    }
  }

  lemma CertifiedIsAuthentic(c: Checks, certified: CertificateCheck, row: Row)
    requires CertifiedRows(c, certified)(row)
    ensures AuthenticRows(c)(row)
  {}

  /** All that `Receive` can do to a device, and what the outcome says about it. */
  ghost predicate Kept(authentic: RowCheck, store: Store, r: Receipt, id: string)
  {
    && Sound(authentic, r.store) && Extends(store, r.store)
    && (AllReceived(authentic, store) ==> AllReceived(authentic, r.store))
    && (r.status.Stored? ==> r.store.HasId(id) && !store.HasId(id))
    && (r.status == Duplicate ==> store.HasId(id))
    && (!r.status.Stored? ==> r.store == store && r.relay.None?)
  }

  lemma ReceiveKeeps(authentic: RowCheck, verify: Verifier, store: Store, quotas: Quotas, peer: string, frame: Frame,
                     nowMs: int)
    requires IdsDeterminePlane(authentic) && Trustworthy(verify, authentic) && Sound(authentic, store)
    ensures Kept(authentic, store, Receive(verify, store, quotas, peer, frame, nowMs), frame.contentId)
  {
    var r := Receive(verify, store, quotas, peer, frame, nowMs);
    if !r.status.Rejected? {
      var wire := Base64Url.Decode(frame.envelope).value;
      var e := verify(wire, frame.contentId).value;
      var row := RowOf(frame, e, nowMs);
      assert TrustworthyFrame(verify, authentic, frame, nowMs);
      PutKeepsSound(authentic, store, row);
      if r.status.Stored? {
        assert row in r.store.List();
        StoredRows(authentic, store, r.store, row);
      }
    }
  }

  lemma StoredRows(authentic: RowCheck, store: Store, store': Store, row: Row)
    requires Put(store, row) == (store', Stored) && ReceivedRow(authentic, row)
    ensures Extends(store, store')
    ensures AllReceived(authentic, store) ==> AllReceived(authentic, store')
  {
    assert forall q :: q in store'.List() ==> q in store.List() || q == row;
  }

  /**
   Receiving keeps the device sound, and every row that comes in this way passed the hop and age checks
   and has no BULK priority and an identifier that matches its bytes.
   */
  lemma ReceiveKeepsRows(c: Checks, certified: CertificateCheck, store: Store, quotas: Quotas, peer: string,
                         frame: Frame, nowMs: int)
    requires CollisionFree(c.sha) && Sound(AuthenticRows(c), store)
    ensures Kept(AuthenticRows(c), store,
      Receive(MeshVerifier(c, certified), store, quotas, peer, frame, nowMs), frame.contentId)
  {
    AuthenticIdsDeterminePlane(c);
    MeshVerifierTrustworthy(c, certified);
    ReceiveKeeps(AuthenticRows(c), MeshVerifier(c, certified), store, quotas, peer, frame, nowMs);
  }

  /** The same with the certificates: a device whose rows all have theirs keeps it so. */
  lemma ReceiveKeepsCertified(c: Checks, certified: CertificateCheck, store: Store, quotas: Quotas, peer: string,
                              frame: Frame, nowMs: int)
    requires CollisionFree(c.sha) && Sound(CertifiedRows(c, certified), store)
    ensures Kept(CertifiedRows(c, certified), store,
      Receive(MeshVerifier(c, certified), store, quotas, peer, frame, nowMs), frame.contentId)
  {
    CertifiedIdsDeterminePlane(c, certified);
    MeshVerifierTrustworthy(c, certified);
    ReceiveKeeps(CertifiedRows(c, certified), MeshVerifier(c, certified), store, quotas, peer, frame, nowMs);
  }

  // ---------------------------------------------------------------- the bounds on a row

  /** What the checks are for: zero to seven hops, not expired or from the future, at most 72 hours to live. */
  predicate WithinBounds(r: Row)
  {
    var hops, origin, expires := Number(r.hops), Number(r.originAtMs), Number(r.expiresAtMs);
    && IsWhole(r.hops) && 0.0 <= hops.value <= 7.0
    && expires.Some? && r.receivedAtMs as real < expires.value
    && origin.Some? && origin.value <= (r.receivedAtMs + 300_000) as real
    && expires.value - origin.value <= 259_200_000.0
  }

  /** A row that came in keeps the bounds exactly when its hops are a whole number and neither time is missing. */
  lemma RowBoundsExactly(authentic: RowCheck, r: Row)
    requires ReceivedRow(authentic, r)
    ensures WithinBounds(r) <==> IsWhole(r.hops) && !r.originAtMs.Absent? && !r.expiresAtMs.Absent?
  {
    if IsWhole(r.hops) {
      assert Number(r.hops).value.Floor < 8;
    }
  }

  /** A frame without hops and times. */
  predicate Unnumbered(frame: Frame)
  {
    frame.originAtMs.Absent? && frame.expiresAtMs.Absent? && (frame.hops.Absent? || frame.hops.Null?)
  }

  /**
   A frame without hops and times passes every check on them at any time: a device that can take its
   bytes in stores a row that never expires, and relays it with null for its hops, or with one if they
   were null already.
   */
  lemma UnnumberedTravels(verify: Verifier, store: Store, quotas: Quotas, peer: string, frame: Frame, nowMs: int)
    requires Unnumbered(frame) && Base64Url.Decode(frame.envelope).Some?
    requires var wire := Base64Url.Decode(frame.envelope).value;
      && Quota.Spend(WindowOf(quotas, peer), |wire|, nowMs).Some?
      && verify(wire, frame.contentId).Ok?
      && !ContainsId(store.Plane(verify(wire, frame.contentId).value.plane), frame.contentId)
    ensures var r := Receive(verify, store, quotas, peer, frame, nowMs);
      var row := RowOf(frame, verify(Base64Url.Decode(frame.envelope).value, frame.contentId).value, nowMs);
      && r.status.Stored? && row in r.store.List() && !WithinBounds(row)
      && (forall t :: !Stale(Reoffer(row), t))
      && r.relay == Some(frame.(hops := if frame.hops.Absent? then Null else Whole(1)))
      && (frame.hops.Absent? ==> Unnumbered(r.relay.value))
  {
    var r := Receive(verify, store, quotas, peer, frame, nowMs);
    var row := RowOf(frame, verify(Base64Url.Decode(frame.envelope).value, frame.contentId).value, nowMs);
    assert row in r.store.List();
  }
}
