/**
 One device's side of the mesh: verifying a portable envelope, the two stores, and the router
 that checks, charges, verifies, stores and relays each frame.

 Cryptography, the domain table and certificate checks are the functions of `Checks`; the
 certificate check may differ from device to device.
 */
module Mesh {
  import opened Wrappers
  import opened Wire
  import opened Canonical
  import opened Decode
  import opened ContentId
  import opened JsonNumbers
  import Base64Url
  import Quota

  const MESH_MAX_HOPS := 8
  const MESH_MAX_TTL_MS := 72 * 60 * 60 * 1000
  const CLOCK_SKEW_MS := 5 * 60 * 1000
  const MAX_OFFERED := 128

  const ENVELOPE_VERSION := 1
  const FORUM := 1
  const SIGNAL := 2
  const BULK := 4

  datatype DomainSpec = DomainSpec(forum: bool, priority: nat, maxBytes: nat, requiresCertificate: bool)

  datatype Checks = Checks(
    nfc: Nfc,
    utf8: Utf8,
    sha: Hash,
    lookupDomain: string -> Option<DomainSpec>,
    verifyEnvelope: Envelope -> bool)

  type CertificateCheck = Envelope -> bool

  datatype Reason =
    | HopLimit | TtlExpired | MalformedBase64 | QuotaExceeded
    | Malformed(error: DecodeError) | UnknownDomain | TooLarge | VersionUnsupported | PlaneMismatch
    | PriorityMismatch | TransportUnsupported | NonCanonical | ContentIdMismatch | SignatureInvalid
    | CertInvalid

  // ---------------------------------------------------------------- verification

  /** All of the checks but the one that asks this device about a certificate. */
  function VerifyContent(c: Checks, wire: seq<byte>, expectedId: string, allowBulk: bool): Result<Envelope, Reason>
  {
    match DecodeSigned(c.nfc, c.utf8, wire)
    case Err(e) => Err(Malformed(e))
    case Ok(e) => VerifyDecoded(c, e, wire, expectedId, allowBulk)
  }

  /** The checks of an envelope that was decoded from these bytes. */
  function VerifyDecoded(c: Checks, e: Envelope, wire: seq<byte>, expectedId: string, allowBulk: bool)
    : Result<Envelope, Reason>
  {
    match c.lookupDomain(e.domain)
    case None => Err(UnknownDomain)
    case Some(spec) =>
      if |wire| > spec.maxBytes then Err(TooLarge)
      else if e.version != ENVELOPE_VERSION then Err(VersionUnsupported)
      else if (if spec.forum then FORUM else SIGNAL) != e.plane then Err(PlaneMismatch)
      else if spec.priority != e.priority then Err(PriorityMismatch)
      else if !allowBulk && e.priority == BULK then Err(TransportUnsupported)
      else if SignedBytes(c.nfc, e) != wire then Err(NonCanonical)
      else if IdOf(c.sha, c.nfc, e) != expectedId then Err(ContentIdMismatch)
      else if !c.verifyEnvelope(e) then Err(SignatureInvalid)
      else Ok(e)
  }

  function NeedsCertificate(c: Checks, e: Envelope): bool
  {
    c.lookupDomain(e.domain).Some? && c.lookupDomain(e.domain).value.requiresCertificate
  }

  function VerifyPortable(c: Checks, certified: CertificateCheck, wire: seq<byte>, expectedId: string, allowBulk: bool)
    : Result<Envelope, Reason>
  {
    match VerifyContent(c, wire, expectedId, allowBulk)
    case Err(r) => Err(r)
    case Ok(e) => if NeedsCertificate(c, e) && !certified(e) then Err(CertInvalid) else Ok(e)
  }

  /** How a router verifies the bytes of a frame against the identifier it came under. */
  type Verifier = (seq<byte>, string) -> Result<Envelope, Reason>

  /** `verifyMeshEnvelope` on a device with this certificate check: no BULK. */
  function MeshVerifier(c: Checks, certified: CertificateCheck): Verifier
  {
    (wire, id) => VerifyPortable(c, certified, wire, id, false)
  }

  /** The re-encoding check after decoding never fires: the decoder has made it already. */
  lemma NeverNonCanonical(c: Checks, wire: seq<byte>, expectedId: string, allowBulk: bool)
    ensures VerifyContent(c, wire, expectedId, allowBulk) != Err(NonCanonical)
  {
    var decoded := DecodeSigned(c.nfc, c.utf8, wire);
    if decoded.Ok? {
      DecodedIsCanonical(c.nfc, c.utf8, wire);
      CanonicalNotBlamed(c, decoded.value, wire, expectedId, allowBulk);
    }
  }

  lemma CanonicalNotBlamed(c: Checks, e: Envelope, wire: seq<byte>, expectedId: string, allowBulk: bool)
    requires SignedBytes(c.nfc, e) == wire
    ensures VerifyDecoded(c, e, wire, expectedId, allowBulk) != Err(NonCanonical)
  {}

  /** Hops are the router's business: verifying bytes never blames them. */
  lemma HopsNotBlamed(c: Checks, certified: CertificateCheck, wire: seq<byte>, id: string)
    ensures MeshVerifier(c, certified)(wire, id) != Err(HopLimit)
  {
    var decoded := DecodeSigned(c.nfc, c.utf8, wire);
    if decoded.Ok? {
      DecodedHopsNotBlamed(c, decoded.value, wire, id);
    }
  }

  lemma DecodedHopsNotBlamed(c: Checks, e: Envelope, wire: seq<byte>, id: string)
    ensures VerifyDecoded(c, e, wire, id, false) != Err(HopLimit)
  {}

  // ---------------------------------------------------------------- stores

  /** The times and the hops come from a frame, whose fields are whatever its JSON said. */
  datatype Row = Row(
    contentId: string,
    envelope: string,
    plane: int,
    priority: int,
    originAtMs: Value,
    expiresAtMs: Value,
    hops: Value,
    receivedAtMs: int)

  datatype Store = Store(forum: seq<Row>, signal: seq<Row>)
  {
    function Plane(plane: int): seq<Row>
    {
      if plane == FORUM then forum else signal
    }

    function List(): seq<Row>
    {
      forum + signal
    }

    ghost predicate HasId(id: string)
    {
      exists r :: r in List() && r.contentId == id
    }
  }

  datatype Status = Stored | Duplicate | Rejected(reason: Reason)

  predicate ContainsId(rows: seq<Row>, id: string)
  {
    exists i :: 0 <= i < |rows| && rows[i].contentId == id
  }

  function Put(s: Store, row: Row): (Store, Status)
  {
    if ContainsId(s.Plane(row.plane), row.contentId) then (s, Duplicate)
    else if row.plane == FORUM then (s.(forum := s.forum + [row]), Stored)
    else (s.(signal := s.signal + [row]), Stored)
  }

  class MeshStore {
    var forum: seq<Row>
    var signal: seq<Row>

    function Contents(): Store
      reads this
    {
      Store(forum, signal)
    }

    constructor ()
      ensures Contents() == Store([], [])
    {
      forum, signal := [], [];
    }

    method PutRow(row: Row) returns (status: Status)
      modifies this
      ensures (Contents(), status) == Put(old(Contents()), row)
    {
      var rows := if row.plane == FORUM then forum else signal;
      if ContainsId(rows, row.contentId) {
        return Duplicate;
      }
      if row.plane == FORUM {
        forum := rows + [row];
      } else {
        signal := rows + [row];
      }
      status := Stored;
    }
  }

  // ---------------------------------------------------------------- router

  datatype Frame = Frame(contentId: string, envelope: string, originAtMs: Value, expiresAtMs: Value, hops: Value)

  /** A stored row offered to a peer again, as the local network does on every sync. */
  function Reoffer(r: Row): Frame
  {
    Frame(r.contentId, r.envelope, r.originAtMs, r.expiresAtMs, r.hops)
  }

  type Quotas = map<string, Quota.Window>

  function WindowOf(quotas: Quotas, peer: string): Option<Quota.Window>
  {
    if peer in quotas then Some(quotas[peer]) else None
  }

  datatype Receipt = Receipt(store: Store, quotas: Quotas, status: Status, relay: Option<Frame>)

  predicate Negative(hops: Value)
  {
    Less(Number(hops), Some(0.0))
  }

  predicate Spent(hops: Value)
  {
    AtMost(Some(MESH_MAX_HOPS as real), Number(hops))
  }

  predicate Stale(frame: Frame, nowMs: int)
  {
    var origin, expires := Number(frame.originAtMs), Number(frame.expiresAtMs);
    || AtMost(expires, Some(nowMs as real))
    || Less(Some(MESH_MAX_TTL_MS as real), Minus(expires, origin))
    || Less(Some((nowMs + CLOCK_SKEW_MS) as real), origin)
  }

  function RowOf(frame: Frame, e: Envelope, nowMs: int): Row
  {
    Row(frame.contentId, frame.envelope, e.plane, e.priority, frame.originAtMs, frame.expiresAtMs, frame.hops, nowMs)
  }

  function Receive(verify: Verifier, store: Store, quotas: Quotas, peer: string, frame: Frame, nowMs: int): Receipt
  {
    if Negative(frame.hops) || Spent(frame.hops) then Receipt(store, quotas, Rejected(HopLimit), None)
    else if Stale(frame, nowMs) then Receipt(store, quotas, Rejected(TtlExpired), None)
    else match Base64Url.Decode(frame.envelope)
      case None => Receipt(store, quotas, Rejected(MalformedBase64), None)
      case Some(wire) =>
        match Quota.Spend(WindowOf(quotas, peer), |wire|, nowMs)
        case None => Receipt(store, quotas, Rejected(QuotaExceeded), None)
        case Some(window) =>
          var charged := quotas[peer := window];
          match verify(wire, frame.contentId)
          case Err(reason) => Receipt(store, charged, Rejected(reason), None)
          case Ok(e) =>
            var (store', status) := Put(store, RowOf(frame, e, nowMs));
            Receipt(store', charged, status, if status.Stored? then Some(frame.(hops := PlusOne(frame.hops))) else None)
  }

  class MeshRouter {
    const store: MeshStore
    const verify: Verifier
    var quotas: Quotas

    constructor (store: MeshStore, verify: Verifier)
      ensures this.store == store && this.verify == verify && quotas == map[]
    {
      this.store, this.verify, quotas := store, verify, map[];
    }

    /** Charges one peer; an exceeded quota changes nothing, and other peers are never affected. */
    method Spend(peer: string, bytes: nat, nowMs: int) returns (ok: bool)
      modifies this
      ensures match Quota.Spend(WindowOf(old(quotas), peer), bytes, nowMs)
        case None => !ok && quotas == old(quotas)
        case Some(window) => ok && quotas == old(quotas)[peer := window]
    {
      var previous := WindowOf(quotas, peer);
      var window :=
        if previous.None? || nowMs - previous.value.startedAtMs >= Quota.HOUR_MS
        then Quota.Window(nowMs, 0, 0) else previous.value;
      if window.envelopes >= Quota.MAX_ENVELOPES || window.bytes + bytes > Quota.MAX_BYTES {
        return false;
      }
      quotas := quotas[peer := window.(envelopes := window.envelopes + 1, bytes := window.bytes + bytes)];
      ok := true;
    }

    method ReceiveFrame(peer: string, frame: Frame, nowMs: int) returns (status: Status, relay: Option<Frame>)
      modifies this, store
      ensures Receipt(store.Contents(), quotas, status, relay) ==
        Receive(verify, old(store.Contents()), old(quotas), peer, frame, nowMs)
    {
      relay := None;
      if Negative(frame.hops) || Spent(frame.hops) {
        return Rejected(HopLimit), None;
      }
      if Stale(frame, nowMs) {
        return Rejected(TtlExpired), None;
      }
      var wire := Base64Url.Decode(frame.envelope);
      if wire.None? {
        return Rejected(MalformedBase64), None;
      }
      var ok := Spend(peer, |wire.value|, nowMs);
      if !ok {
        return Rejected(QuotaExceeded), None;
      }
      var verified := verify(wire.value, frame.contentId);
      if verified.Err? {
        return Rejected(verified.error), None;
      }
      status := store.PutRow(RowOf(frame, verified.value, nowMs));
      if status.Stored? {
        relay := Some(frame.(hops := PlusOne(frame.hops)));
      }
    }
  }

  // ---------------------------------------------------------------- what is verified

  /**
   What holds of an envelope and the bytes it was decoded from when every check is passed that does not
   ask this device about a certificate.
   */
  ghost predicate PassesChecks(c: Checks, e: Envelope, size: nat, id: string)
  {
    && IdOf(c.sha, c.nfc, e) == id && c.verifyEnvelope(e)
    && e.version == 1
    && c.lookupDomain(e.domain).Some?
    && var spec := c.lookupDomain(e.domain).value;
      && size <= spec.maxBytes
      && e.plane == (if spec.forum then 1 else 2)
      && e.priority == spec.priority
  }

  lemma DecodedExactly(c: Checks, e: Envelope, wire: seq<byte>, id: string, allowBulk: bool)
    requires SignedBytes(c.nfc, e) == wire
    ensures VerifyDecoded(c, e, wire, id, allowBulk).Ok?
       <==> PassesChecks(c, e, |wire|, id) && (allowBulk || e.priority != 4)
    ensures VerifyDecoded(c, e, wire, id, allowBulk).Ok? ==> VerifyDecoded(c, e, wire, id, allowBulk).value == e
  {}

  /** The certificate the domain asks for, if it asks for one. */
  ghost predicate Certificated(c: Checks, certified: CertificateCheck, e: Envelope)
  {
    c.lookupDomain(e.domain).Some? && c.lookupDomain(e.domain).value.requiresCertificate ==> certified(e)
  }

  lemma CertificatedAfter(c: Checks, certified: CertificateCheck, wire: seq<byte>, id: string, allowBulk: bool,
                          e: Envelope)
    ensures VerifyPortable(c, certified, wire, id, allowBulk) == Ok(e)
       <==> VerifyContent(c, wire, id, allowBulk) == Ok(e) && Certificated(c, certified, e)
  {}

  /** Bytes are verified as an envelope exactly when they decode to it and it passes every check. */
  lemma VerifiedExactly(c: Checks, certified: CertificateCheck, wire: seq<byte>, id: string, allowBulk: bool,
                        e: Envelope)
    ensures VerifyPortable(c, certified, wire, id, allowBulk) == Ok(e)
       <==> (&& DecodeSigned(c.nfc, c.utf8, wire) == Ok(e) && PassesChecks(c, e, |wire|, id)
             && (allowBulk || e.priority != 4) && Certificated(c, certified, e))
  {
    CertificatedAfter(c, certified, wire, id, allowBulk, e);
    ContentExactly(c, wire, id, allowBulk, e);
  }

  lemma ContentExactly(c: Checks, wire: seq<byte>, id: string, allowBulk: bool, e: Envelope)
    ensures VerifyContent(c, wire, id, allowBulk) == Ok(e)
       <==> (&& DecodeSigned(c.nfc, c.utf8, wire) == Ok(e) && PassesChecks(c, e, |wire|, id)
             && (allowBulk || e.priority != 4))
  {
    var decoded := DecodeSigned(c.nfc, c.utf8, wire);
    if decoded.Ok? {
      DecodedIsCanonical(c.nfc, c.utf8, wire);
      DecodedExactly(c, decoded.value, wire, id, allowBulk);
    }
  }

  /** On the mesh, in full: BULK is refused. */
  lemma MeshVerifiedExactly(c: Checks, certified: CertificateCheck, wire: seq<byte>, id: string, e: Envelope)
    ensures MeshVerifier(c, certified)(wire, id) == Ok(e)
       <==> (&& DecodeSigned(c.nfc, c.utf8, wire) == Ok(e)
             && c.lookupDomain(e.domain).Some?
             && (var spec := c.lookupDomain(e.domain).value;
                 && |wire| <= spec.maxBytes && e.version == 1
                 && e.plane == (if spec.forum then 1 else 2)
                 && e.priority == spec.priority && e.priority != 4
                 && IdOf(c.sha, c.nfc, e) == id && c.verifyEnvelope(e)
                 && (spec.requiresCertificate ==> certified(e))))
  {
    VerifiedExactly(c, certified, wire, id, false, e);
  }

  /** The checks come in a fixed order: the first that fails is the reason. */
  lemma FirstFailedCheck(c: Checks, e: Envelope, wire: seq<byte>, id: string, allowBulk: bool)
    requires SignedBytes(c.nfc, e) == wire
    ensures var r := VerifyDecoded(c, e, wire, id, allowBulk);
      && (c.lookupDomain(e.domain).None? <==> r == Err(UnknownDomain))
      && (c.lookupDomain(e.domain).Some? ==>
            var spec := c.lookupDomain(e.domain).value;
            var sized := |wire| <= spec.maxBytes;
            var versioned := sized && e.version == 1;
            var planed := versioned && e.plane == (if spec.forum then 1 else 2);
            var ranked := planed && e.priority == spec.priority;
            var carried := ranked && (allowBulk || e.priority != 4);
            var named := carried && IdOf(c.sha, c.nfc, e) == id;
            && (r == Err(TooLarge) <==> !sized)
            && (r == Err(VersionUnsupported) <==> sized && !versioned)
            && (r == Err(PlaneMismatch) <==> versioned && !planed)
            && (r == Err(PriorityMismatch) <==> planed && !ranked)
            && (r == Err(TransportUnsupported) <==> ranked && !carried)
            && (r == Err(ContentIdMismatch) <==> carried && !named)
            && (r == Err(SignatureInvalid) <==> named && !c.verifyEnvelope(e)))
  {}

  // ---------------------------------------------------------------- what the stores hold

  /**
   The bytes of a row decode to an envelope that passes every check under the row's identifier, its
   signature and its size among them, and the row's plane and priority are the envelope's.
   */
  ghost predicate Authentic(c: Checks, r: Row)
  {
    match Base64Url.Decode(r.envelope)
    case None => false
    case Some(wire) =>
      match DecodeSigned(c.nfc, c.utf8, wire)
      case Err(_) => false
      case Ok(e) => PassesChecks(c, e, |wire|, r.contentId) && e.plane == r.plane && e.priority == r.priority
  }
}
