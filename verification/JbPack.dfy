/**
 Portable bundles: export of stored envelopes, and an import that verifies every item on its own.

 `parse` and `render` stand for JSON and UTF-8; `parse` gives nothing for bytes that are not JSON
 or whose `envelopes` is not an array.
 */
module JbPack {
  import opened Wrappers
  import opened Wire
  import opened Decode
  import opened Canonical
  import opened ContentId
  import opened JsonNumbers
  import opened Mesh
  import opened MeshRows
  import Base64Url

  const JBPACK_MAX_BYTES := 16 * 1024 * 1024
  const JBPACK_MAX_ENVELOPES := 10_000

  datatype Item = Item(contentId: string, envelope: string)
  datatype Pack = Pack(format: string, version: int, createdAtMs: int, envelopes: seq<Item>)
  datatype PackError = TooManyEnvelopes | TooManyBytes | Unsupported

  type Parser = seq<byte> -> Option<Pack>
  type Renderer = Pack -> seq<byte>

  function ItemOf(r: Row): Item
  {
    Item(r.contentId, r.envelope)
  }

  function ItemsOf(rows: seq<Row>): (items: seq<Item>)
    ensures |items| == |rows|
    ensures forall i :: 0 <= i < |rows| ==> items[i] == ItemOf(rows[i])
  {
    seq(|rows|, i requires 0 <= i < |rows| => ItemOf(rows[i]))
  }

  function CreateJbPack(render: Renderer, rows: seq<Row>, createdAtMs: int): Result<seq<byte>, PackError>
  {
    if |rows| > JBPACK_MAX_ENVELOPES then Err(TooManyEnvelopes)
    else
      var bytes := render(Pack("jagoo-bundle", 1, createdAtMs, ItemsOf(rows)));
      if |bytes| > JBPACK_MAX_BYTES then Err(TooManyBytes) else Ok(bytes)
  }

  function Open(parse: Parser, bytes: seq<byte>): Result<seq<Item>, PackError>
  {
    if |bytes| > JBPACK_MAX_BYTES then Err(TooManyBytes)
    else match parse(bytes)
      case None => Err(Unsupported)
      case Some(pack) =>
        if pack.format != "jagoo-bundle" || pack.version != 1 || |pack.envelopes| > JBPACK_MAX_ENVELOPES
        then Err(Unsupported) else Ok(pack.envelopes)
  }

  /** A bundle opens exactly when it is no larger than 16 MiB, in the one format and of at most 10000 items. */
  lemma OpenedExactly(parse: Parser, bytes: seq<byte>, items: seq<Item>)
    ensures Open(parse, bytes) == Ok(items) <==>
      && |bytes| <= 16_777_216 && parse(bytes).Some?
      && parse(bytes).value.format == "jagoo-bundle" && parse(bytes).value.version == 1
      && parse(bytes).value.envelopes == items && |items| <= 10_000
  {}

  // ---------------------------------------------------------------- importing

  /** Verification of a bundle item: BULK is allowed. */
  function PortableVerifier(c: Checks, certified: CertificateCheck): Verifier
  {
    (wire, id) => VerifyPortable(c, certified, wire, id, true)
  }

  function Verified(verify: Verifier, item: Item): Option<Envelope>
  {
    match Base64Url.Decode(item.envelope)
    case None => None
    case Some(wire) =>
      match verify(wire, item.contentId)
      case Err(_) => None
      case Ok(e) => Some(e)
  }

  /** `Number(envelope.created_at_ms)`; a decoded time is never negative. */
  function NumberOfTime(v: int): int
  {
    var magnitude: int := ToNumber(if v < 0 then -v else v);
    if v < 0 then -magnitude else magnitude
  }

  /** Exact up to 2^53, on either side of zero. */
  lemma TimeIsExact(v: int)
    ensures -TWO_TO_THE_53 < v < TWO_TO_THE_53 ==> NumberOfTime(v) == v
    ensures NumberOfTime(-v) == -NumberOfTime(v)
  {
    ToNumberFacts(if v < 0 then -v else v);
    ToNumberFacts(0);
  }

  /** What an import depends on: how an item is verified, and how its time becomes a number. */
  datatype Importer = Importer(verified: Item -> Option<Envelope>, number: int -> int)

  function ProgramImporter(c: Checks, certified: CertificateCheck): Importer
  {
    Importer(item => Verified(PortableVerifier(c, certified), item), NumberOfTime)
  }

  function PlaneOf(e: Envelope): int
  {
    if e.plane == FORUM then FORUM else SIGNAL
  }

  function ImportedRow(im: Importer, item: Item, e: Envelope, nowMs: int): Row
  {
    Row(item.contentId, item.envelope, PlaneOf(e), e.priority, Whole(im.number(e.createdAtMs)),
        Whole(nowMs + MESH_MAX_TTL_MS), Whole(0), nowMs)
  }

  datatype Report = Report(store: Store, imported: nat, duplicates: nat, rejected: nat)

  function ImportItem(im: Importer, store: Store, item: Item, nowMs: int): (Store, Status)
  {
    match im.verified(item)
    case None => (store, Rejected(MalformedBase64))
    case Some(e) => Put(store, ImportedRow(im, item, e, nowMs))
  }

  function Count(status: Status, rest: Report): Report
  {
    match status
    case Stored => rest.(imported := rest.imported + 1)
    case Duplicate => rest.(duplicates := rest.duplicates + 1)
    case Rejected(_) => rest.(rejected := rest.rejected + 1)
  }

  function Import(im: Importer, store: Store, items: seq<Item>, nowMs: int): Report
    decreases |items|
  {
    if items == [] then Report(store, 0, 0, 0)
    else
      var (store', status) := ImportItem(im, store, items[0], nowMs);
      Count(status, Import(im, store', items[1..], nowMs))
  }

  method ImportJbPack(parse: Parser, bytes: seq<byte>, store: MeshStore, im: Importer, nowMs: int)
    returns (r: Result<(nat, nat, nat), PackError>)
    modifies store
    ensures match Open(parse, bytes)
      case Err(e) => r == Err(e) && store.Contents() == old(store.Contents())
      case Ok(items) =>
        var report := Import(im, old(store.Contents()), items, nowMs);
        store.Contents() == report.store && r == Ok((report.imported, report.duplicates, report.rejected))
  {
    var unpacked := Open(parse, bytes);
    if unpacked.Err? {
      return Err(unpacked.error);
    }
    var items := unpacked.value;
    var imported, duplicates, rejected := 0, 0, 0;
    ghost var whole := Import(im, store.Contents(), items, nowMs);
    for i := 0 to |items|
      invariant var rest := Import(im, store.Contents(), items[i..], nowMs);
        whole == Report(rest.store, imported + rest.imported, duplicates + rest.duplicates, rejected + rest.rejected)
    {
      assert items[i..][1..] == items[i + 1..];
      var e := im.verified(items[i]);
      if e.None? {
        rejected := rejected + 1;
      } else {
        var status := store.PutRow(ImportedRow(im, items[i], e.value, nowMs));
        if status.Stored? {
          imported := imported + 1;
        } else {
          duplicates := duplicates + 1;
        }
      }
    }
    r := Ok((imported, duplicates, rejected));
  }

  // ---------------------------------------------------------------- conservation and idempotence

  ghost predicate Holds(im: Importer, store: Store, item: Item)
  {
    im.verified(item).Some? ==>
      ContainsId(store.Plane(PlaneOf(im.verified(item).value)), item.contentId)
  }

  lemma ItemHeld(im: Importer, store: Store, item: Item, nowMs: int)
    ensures Extends(store, ImportItem(im, store, item, nowMs).0)
    ensures Holds(im, ImportItem(im, store, item, nowMs).0, item)
    ensures ImportItem(im, store, item, nowMs).1.Rejected? <==> im.verified(item).None?
    ensures Holds(im, store, item) ==>
      !ImportItem(im, store, item, nowMs).1.Stored? && ImportItem(im, store, item, nowMs).0 == store
  {
    var (store', status) := ImportItem(im, store, item, nowMs);
    if status.Stored? {
      var rows := store'.Plane(PlaneOf(im.verified(item).value));
      assert rows[|rows| - 1].contentId == item.contentId;
    }
  }

  lemma HeldStays(im: Importer, store: Store, store': Store, item: Item)
    requires Extends(store, store') && Holds(im, store, item)
    ensures Holds(im, store', item)
  {
    if im.verified(item).Some? {
      var plane := PlaneOf(im.verified(item).value);
      var i :| 0 <= i < |store.Plane(plane)| && store.Plane(plane)[i].contentId == item.contentId;
      assert store'.Plane(plane)[i].contentId == item.contentId;
    }
  }

  ghost function Invalid(im: Importer, items: seq<Item>): nat
  {
    if items == [] then 0 else (if im.verified(items[0]).None? then 1 else 0) + Invalid(im, items[1..])
  }

  /**
   Every item is counted once; exactly the invalid ones are rejected; every valid one is in the
   store afterwards, whatever its neighbours contain; and nothing stored before is touched.
   */
  lemma {:induction false} ImportConserves(im: Importer, store: Store, items: seq<Item>, nowMs: int)
    ensures var r := Import(im, store, items, nowMs);
      && r.imported + r.duplicates + r.rejected == |items|
      && r.rejected == Invalid(im, items)
      && Extends(store, r.store)
      && (forall item :: item in items ==> Holds(im, r.store, item))
      && |r.store.List()| == |store.List()| + r.imported
    decreases |items|
  {
    if items != [] {
      var (store', status) := ImportItem(im, store, items[0], nowMs);
      var r := Import(im, store', items[1..], nowMs);
      ItemHeld(im, store, items[0], nowMs);
      ImportConserves(im, store', items[1..], nowMs);
      HeldStays(im, store', r.store, items[0]);
      assert items == [items[0]] + items[1..];
    }
  }

  lemma {:induction false} NothingNew(im: Importer, store: Store, items: seq<Item>, nowMs: int)
    requires forall item :: item in items ==> Holds(im, store, item)
    ensures Import(im, store, items, nowMs).imported == 0
    ensures Import(im, store, items, nowMs).store == store
    decreases |items|
  {
    if items != [] {
      assert items[0] in items;
      ItemHeld(im, store, items[0], nowMs);
      NothingNew(im, store, items[1..], nowMs);
    }
  }

  /** Importing a bundle again, at any time and in any later state of the store, imports nothing. */
  lemma ImportTwice(im: Importer, store: Store, items: seq<Item>, nowMs: int, later: Store, laterMs: int)
    requires Extends(Import(im, store, items, nowMs).store, later)
    ensures var r := Import(im, later, items, laterMs);
      r.imported == 0 && r.store == later && r.duplicates == |items| - Invalid(im, items)
  {
    ImportConserves(im, store, items, nowMs);
    forall item | item in items ensures Holds(im, later, item) {
      HeldStays(im, Import(im, store, items, nowMs).store, later, item);
    }
    NothingNew(im, later, items, laterMs);
    ImportConserves(im, later, items, laterMs);
  }

  // ---------------------------------------------------------------- export and import

  ghost predicate Pairs(store: Store, item: Item)
  {
    exists r :: r in store.List() && ItemOf(r) == item
  }

  lemma NewItemStored(im: Importer, store: Store, item: Item, nowMs: int)
    requires im.verified(item).Some? && !store.HasId(item.contentId)
    ensures var (store', status) := ImportItem(im, store, item, nowMs);
      && status.Stored? && Pairs(store', item)
      && forall r :: r in store'.List() ==> r in store.List() || ItemOf(r) == item
  {
    var e := im.verified(item).value;
    var row := ImportedRow(im, item, e, nowMs);
    var (store', status) := ImportItem(im, store, item, nowMs);
    var rows := store.Plane(row.plane);
    assert forall q :: q in rows ==> q in store.List();
    assert row in store'.List() && ItemOf(row) == item;
  }

  /** Importing valid items with new, distinct identifiers stores each of them and nothing else. */
  lemma {:induction false} ImportNew(im: Importer, store: Store, items: seq<Item>, nowMs: int)
    requires forall item :: item in items ==> im.verified(item).Some? && !store.HasId(item.contentId)
    requires forall i, j :: 0 <= i < j < |items| ==> items[i].contentId != items[j].contentId
    ensures var r := Import(im, store, items, nowMs);
      && r.imported == |items|
      && (forall item :: item in items ==> Pairs(r.store, item))
      && (forall q :: q in r.store.List() ==> q in store.List() || ItemOf(q) in items)
    decreases |items|
  {
    if items != [] {
      var (store', status) := ImportItem(im, store, items[0], nowMs);
      NewItemStored(im, store, items[0], nowMs);
      var rest := items[1..];
      forall item | item in rest ensures im.verified(item).Some? && !store'.HasId(item.contentId) {
        assert item in items;
      }
      ImportNew(im, store', rest, nowMs);
      ImportConserves(im, store', rest, nowMs);
      PairStays(store', Import(im, store', rest, nowMs).store, items[0]);
      assert items == [items[0]] + rest;
    }
  }

  lemma PairStays(store: Store, store': Store, item: Item)
    requires Extends(store, store') && Pairs(store, item)
    ensures Pairs(store', item)
  {
    var r :| r in store.List() && ItemOf(r) == item;
    assert r in store'.List();
  }

  /** The bytes of a bundle open to the items it was made of. */
  lemma BundleRoundTrip(parse: Parser, render: Renderer, rows: seq<Row>, createdAtMs: int)
    requires forall p :: parse(render(p)) == Some(p)
    requires CreateJbPack(render, rows, createdAtMs).Ok?
    ensures Open(parse, CreateJbPack(render, rows, createdAtMs).value) == Ok(ItemsOf(rows))
  {}

  lemma ItemsOfRows(rows: seq<Row>)
    ensures forall item :: item in ItemsOf(rows) <==> exists r :: r in rows && ItemOf(r) == item
  {
    var items := ItemsOf(rows);
    forall item ensures item in items <==> exists r :: r in rows && ItemOf(r) == item {
      if item in items {
        var i :| 0 <= i < |items| && items[i] == item;
        assert rows[i] in rows;
      }
      if r :| r in rows && ItemOf(r) == item {
        var i :| 0 <= i < |rows| && rows[i] == r;
        assert items[i] == item;
      }
    }
  }

  /**
   Carrying a bundle to an empty device restores it: exporting valid rows with distinct
   identifiers and importing the bytes gives back exactly their (identifier, envelope) pairs.
   */
  lemma ExportImport(parse: Parser, render: Renderer, im: Importer, rows: seq<Row>, createdAtMs: int, nowMs: int,
                     items: seq<Item>)
    requires forall p :: parse(render(p)) == Some(p)
    requires forall r :: r in rows ==> im.verified(ItemOf(r)).Some?
    requires DistinctIds(rows) && CreateJbPack(render, rows, createdAtMs).Ok?
    requires Open(parse, CreateJbPack(render, rows, createdAtMs).value) == Ok(items)
    ensures var r := Import(im, Store([], []), items, nowMs);
      && r.imported == |rows| == |r.store.List()|
      && (forall row :: row in rows ==> Pairs(r.store, ItemOf(row)))
      && (forall q :: q in r.store.List() ==> exists row :: row in rows && ItemOf(row) == ItemOf(q))
  {
    BundleRoundTrip(parse, render, rows, createdAtMs);
    ItemsOfRows(rows);
    Restored(im, items, nowMs);
    assert forall row :: row in rows ==> ItemOf(row) in items;
  }

  lemma Restored(im: Importer, items: seq<Item>, nowMs: int)
    requires forall item :: item in items ==> im.verified(item).Some?
    requires forall i, j :: 0 <= i < j < |items| ==> items[i].contentId != items[j].contentId
    ensures var r := Import(im, Store([], []), items, nowMs);
      && r.imported == |items| == |r.store.List()|
      && (forall item :: item in items ==> Pairs(r.store, item))
      && (forall q :: q in r.store.List() ==> ItemOf(q) in items)
  {
    ImportNew(im, Store([], []), items, nowMs);
    ImportConserves(im, Store([], []), items, nowMs);
  }

  // ---------------------------------------------------------------- imported rows on a device

  /** Whatever the importer lets through makes an authentic row of one of the two planes. */
  ghost predicate TrustworthyImporter(im: Importer, authentic: RowCheck)
  {
    forall item: Item, nowMs: int :: im.verified(item).Some? ==>
      authentic(ImportedRow(im, item, im.verified(item).value, nowMs))
  }

  lemma {:induction false} ImportKeepsSound(im: Importer, authentic: RowCheck, store: Store, items: seq<Item>,
                                            nowMs: int)
    requires IdsDeterminePlane(authentic) && TrustworthyImporter(im, authentic) && Sound(authentic, store)
    ensures Sound(authentic, Import(im, store, items, nowMs).store)
    decreases |items|
  {
    if items != [] {
      if im.verified(items[0]).Some? {
        PutKeepsSound(authentic, store, ImportedRow(im, items[0], im.verified(items[0]).value, nowMs));
      }
      ImportKeepsSound(im, authentic, ImportItem(im, store, items[0], nowMs).0, items[1..], nowMs);
    }
  }

  /** From a bundle, in full: BULK is let through. */
  lemma PortableVerifiedExactly(c: Checks, certified: CertificateCheck, wire: seq<byte>, id: string, e: Envelope)
    ensures PortableVerifier(c, certified)(wire, id) == Ok(e)
       <==> (&& DecodeSigned(c.nfc, c.utf8, wire) == Ok(e)
             && c.lookupDomain(e.domain).Some?
             && (var spec := c.lookupDomain(e.domain).value;
                 && |wire| <= spec.maxBytes && e.version == 1
                 && e.plane == (if spec.forum then 1 else 2) && e.priority == spec.priority
                 && IdOf(c.sha, c.nfc, e) == id && c.verifyEnvelope(e)
                 && (spec.requiresCertificate ==> certified(e))))
  {
    VerifiedExactly(c, certified, wire, id, true, e);
  }

  lemma PortableRow(c: Checks, certified: CertificateCheck, item: Item, nowMs: int)
    requires ProgramImporter(c, certified).verified(item).Some?
    ensures var im := ProgramImporter(c, certified);
      CertifiedRows(c, certified)(ImportedRow(im, item, im.verified(item).value, nowMs))
  {
    var im := ProgramImporter(c, certified);
    var wire, e := Base64Url.Decode(item.envelope).value, im.verified(item).value;
    VerifiedExactly(c, certified, wire, item.contentId, true, e);
    DecodedRow(c, certified, ImportedRow(im, item, e, nowMs), wire, e);
  }

  /**
   What an import brings in passes every check too: rows that are authentic, or besides have the
   certificates their domains ask for, stay so whatever the bundle holds.
   */
  lemma ProgramImportKeepsSound(c: Checks, certified: CertificateCheck, store: Store, items: seq<Item>, nowMs: int)
    requires CollisionFree(c.sha)
    ensures var store' := Import(ProgramImporter(c, certified), store, items, nowMs).store;
      && (Sound(AuthenticRows(c), store) ==> Sound(AuthenticRows(c), store'))
      && (Sound(CertifiedRows(c, certified), store) ==> Sound(CertifiedRows(c, certified), store'))
  {
    var im := ProgramImporter(c, certified);
    var check, weaker := CertifiedRows(c, certified), AuthenticRows(c);
    forall item: Item, t: int | im.verified(item).Some?
      ensures check(ImportedRow(im, item, im.verified(item).value, t))
      ensures weaker(ImportedRow(im, item, im.verified(item).value, t))
    {
      PortableRow(c, certified, item, t);
      CertifiedIsAuthentic(c, certified, ImportedRow(im, item, im.verified(item).value, t));
    }
    AuthenticIdsDeterminePlane(c);
    CertifiedIdsDeterminePlane(c, certified);
    if Sound(weaker, store) {
      ImportKeepsSound(im, weaker, store, items, nowMs);
    }
    if Sound(check, store) {
      ImportKeepsSound(im, check, store, items, nowMs);
    }
  }

  /** What a row made from an item looks like: no hops yet, 72 hours to live from the import. */
  ghost predicate MadeFrom(im: Importer, row: Row, item: Item, nowMs: int)
  {
    && im.verified(item).Some?
    && var e := im.verified(item).value;
      && row.contentId == item.contentId && row.envelope == item.envelope
      && row.plane == (if e.plane == 1 then 1 else 2) && row.priority == e.priority
      && row.hops == Whole(0)
      && row.originAtMs == Whole(im.number(e.createdAtMs))
      && row.expiresAtMs == Whole(nowMs + 259_200_000)
      && row.receivedAtMs == nowMs
  }

  ghost predicate MadeFromOne(im: Importer, row: Row, items: seq<Item>, nowMs: int)
  {
    exists item :: item in items && MadeFrom(im, row, item, nowMs)
  }

  /** Every row an import adds is made from one of its items. */
  lemma {:induction false} ImportedRowsAre(im: Importer, store: Store, items: seq<Item>, nowMs: int)
    ensures forall row :: row in Import(im, store, items, nowMs).store.List() ==>
      row in store.List() || MadeFromOne(im, row, items, nowMs)
    decreases |items|
  {
    if items != [] {
      var store' := ImportItem(im, store, items[0], nowMs).0;
      ImportedRowsAre(im, store', items[1..], nowMs);
      forall row | row in Import(im, store, items, nowMs).store.List() && row !in store.List()
        ensures MadeFromOne(im, row, items, nowMs)
      {
        assert items == [items[0]] + items[1..];
        if row in store'.List() {
          ItemRowIs(im, store, items[0], nowMs, row);
          assert items[0] in items;
        }
      }
    }
  }

  lemma ItemRowIs(im: Importer, store: Store, item: Item, nowMs: int, row: Row)
    requires row in ImportItem(im, store, item, nowMs).0.List() && row !in store.List()
    ensures MadeFrom(im, row, item, nowMs)
  {}

  /** No peer refuses an imported row for its hops. */
  lemma ImportedHopsPass(c: Checks, certified: CertificateCheck, im: Importer, row: Row, item: Item, importedMs: int,
                         store: Store, quotas: Quotas, peer: string, nowMs: int)
    requires MadeFrom(im, row, item, importedMs)
    ensures Receive(MeshVerifier(c, certified), store, quotas, peer, Reoffer(row), nowMs).status != Rejected(HopLimit)
  {
    var wire := Base64Url.Decode(row.envelope);
    if wire.Some? {
      HopsNotBlamed(c, certified, wire.value, row.contentId);
    }
    HopsPass(MeshVerifier(c, certified), store, quotas, peer, Reoffer(row), nowMs);
  }

  lemma HopsPass(verify: Verifier, store: Store, quotas: Quotas, peer: string, frame: Frame, nowMs: int)
    requires frame.hops == Whole(0)
    requires Base64Url.Decode(frame.envelope).Some? ==>
      verify(Base64Url.Decode(frame.envelope).value, frame.contentId) != Err(HopLimit)
    ensures Receive(verify, store, quotas, peer, frame, nowMs).status != Rejected(HopLimit)
  {}

  /**
   The expiry of an imported row is counted from the import but its origin from its creation, so a
   peer's age check refuses it, at any time, whenever it was created before it was imported.
   */
  lemma ImportedRowStale(im: Importer, item: Item, e: Envelope, importedMs: int, nowMs: int)
    ensures var created := im.number(e.createdAtMs);
      Stale(Reoffer(ImportedRow(im, item, e, importedMs)), nowMs)
      <==> created < importedMs || importedMs + MESH_MAX_TTL_MS <= nowMs || created > nowMs + CLOCK_SKEW_MS
  {}
}
