/**
 On-device verification of provenance, with its two bounded caches in front.

 Cryptography and decoding are the functions of `Crypto`; `None` is a call that throws. `fingerprint`
 stands for the digest of a value's JSON.
 */
module VerifyCache {
  import opened Wrappers
  import opened BoundedMap
  import opened OrderedMaps

  type Bytes = seq<int>

  datatype Sth<T> = Sth(treeSize: int, serverKey: T, rootHash: T, timestampMs: int, signature: T)

  /** A receipt whose binary parts are base64 text or bytes. */
  datatype Receipt<T> = Receipt(
    logIndex: int, leafIndex: int, acceptedAtMs: int, serverId: string,
    serverKey: T, serverSignature: T, sth: Sth<T>, inclusionProof: seq<T>)

  datatype Provenance = Provenance(
    contentId: string, authorKey: string, keyAlg: string, signature: string,
    canonicalBytes: string, receipt: Option<Receipt<string>>)

  datatype Verdict = Verdict(contentId: bool, authorSignature: bool, publicationReceipt: bool, verified: bool)

  datatype Crypto = Crypto(
    fromBase64: string -> Option<Bytes>,
    base32Decode: string -> Option<Bytes>,
    contentIdOf: Bytes -> string,
    serverIdOf: Bytes -> string,
    verifySignature: (Bytes, Bytes, Bytes) -> Option<bool>,
    verifyReceipt: (Receipt<Bytes>, string) -> Option<bool>,
    fingerprint: Provenance -> string)

  const TTL_MS := 5 * 60 * 1000
  const MAX_VERIFIED_CONTENT := 4096
  const MAX_AUTHOR_KEYS := 512
  const NOTHING_HOLDS := Verdict(false, false, false, false)

  // ---------------------------------------------------------------- without a cache

  function DecodeAll(c: Crypto, texts: seq<string>): Option<seq<Bytes>>
  {
    if texts == [] then Some([])
    else
      var first, rest := c.fromBase64(texts[0]), DecodeAll(c, texts[1..]);
      if first.None? || rest.None? then None else Some([first.value] + rest.value)
  }

  function ParseReceipt(c: Crypto, r: Receipt<string>): Option<Receipt<Bytes>>
  {
    var binary := DecodeAll(c, [r.serverKey, r.serverSignature, r.sth.serverKey, r.sth.rootHash, r.sth.signature]);
    var proof := DecodeAll(c, r.inclusionProof);
    if binary.None? || proof.None? || |binary.value| != 5 then None
    else
      var b := binary.value;
      var sth := Sth(r.sth.treeSize, b[2], b[3], r.sth.timestampMs, b[4]);
      Some(Receipt(r.logIndex, r.leafIndex, r.acceptedAtMs, r.serverId, b[0], b[1], sth, proof.value))
  }

  /** The encoded author key without its prefix, if it has it. */
  function StripPrefix(encoded: string): string
  {
    if "jbk1" <= encoded then encoded[4..] else encoded
  }

  function AuthorKey(c: Crypto, encoded: string): Option<Bytes>
  {
    c.base32Decode(StripPrefix(encoded))
  }

  function SignatureHolds(c: Crypto, v: Provenance, canonical: Bytes, key: Bytes): Option<bool>
  {
    if v.keyAlg != "ED25519" then Some(false)
    else
      var signature := c.fromBase64(v.signature);
      if signature.None? then None else c.verifySignature(signature.value, canonical, key)
  }

  function ReceiptHolds(c: Crypto, v: Provenance): Option<bool>
  {
    if v.receipt.None? then Some(false)
    else
      var receipt := ParseReceipt(c, v.receipt.value);
      if receipt.None? then None
      else if c.serverIdOf(receipt.value.serverKey) != receipt.value.serverId then Some(false)
      else c.verifyReceipt(receipt.value, v.contentId)
  }

  /** The verdict once the content's bytes and the author's key are decoded. */
  function Judge(c: Crypto, v: Provenance, canonical: Bytes, key: Bytes): Verdict
  {
    var signature, receipt := SignatureHolds(c, v, canonical, key), ReceiptHolds(c, v);
    if signature.None? || receipt.None? then NOTHING_HOLDS
    else
      var id := c.contentIdOf(canonical) == v.contentId;
      Verdict(id, signature.value, receipt.value, id && signature.value && receipt.value)
  }

  /** What verification says with no cache at all. */
  function Uncached(c: Crypto, v: Provenance): Verdict
  {
    var canonical, key := c.fromBase64(v.canonicalBytes), AuthorKey(c, v.authorKey);
    if canonical.None? || key.None? then NOTHING_HOLDS else Judge(c, v, canonical.value, key.value)
  }

  // ---------------------------------------------------------------- what a verdict means

  ghost predicate DecodesTo(c: Crypto, text: Receipt<string>, r: Receipt<Bytes>)
  {
    && r.logIndex == text.logIndex && r.leafIndex == text.leafIndex && r.acceptedAtMs == text.acceptedAtMs
    && r.serverId == text.serverId
    && c.fromBase64(text.serverKey) == Some(r.serverKey)
    && c.fromBase64(text.serverSignature) == Some(r.serverSignature)
    && r.sth.treeSize == text.sth.treeSize && r.sth.timestampMs == text.sth.timestampMs
    && c.fromBase64(text.sth.serverKey) == Some(r.sth.serverKey)
    && c.fromBase64(text.sth.rootHash) == Some(r.sth.rootHash)
    && c.fromBase64(text.sth.signature) == Some(r.sth.signature)
    && |r.inclusionProof| == |text.inclusionProof|
    && forall i :: 0 <= i < |text.inclusionProof| ==> c.fromBase64(text.inclusionProof[i]) == Some(r.inclusionProof[i])
  }

  /** The author's key, written with or without its prefix. */
  ghost predicate HasKey(c: Crypto, v: Provenance, key: Bytes)
  {
    var encoded := v.authorKey;
    c.base32Decode(if |encoded| >= 4 && encoded[..4] == "jbk1" then encoded[4..] else encoded) == Some(key)
  }

  /** The identifier is that of the bytes. */
  ghost predicate NamesContent(c: Crypto, v: Provenance)
  {
    c.fromBase64(v.canonicalBytes).Some? && c.contentIdOf(c.fromBase64(v.canonicalBytes).value) == v.contentId
  }

  /** The author's key signed the bytes. */
  ghost predicate AuthorSigned(c: Crypto, v: Provenance)
  {
    && v.keyAlg == "ED25519"
    && exists canonical, key, signature ::
      && c.fromBase64(v.canonicalBytes) == Some(canonical) && HasKey(c, v, key)
      && c.fromBase64(v.signature) == Some(signature)
      && c.verifySignature(signature, canonical, key) == Some(true)
  }

  /** There is a receipt, it names the server whose key it carries, and it is good for this identifier. */
  ghost predicate Published(c: Crypto, v: Provenance)
  {
    && v.receipt.Some?
    && exists r ::
      && DecodesTo(c, v.receipt.value, r)
      && c.serverIdOf(r.serverKey) == r.serverId
      && c.verifyReceipt(r, v.contentId) == Some(true)
  }

  /** The signature is looked at, and does not decode or its check throws. */
  ghost predicate SignatureThrows(c: Crypto, v: Provenance)
  {
    && v.keyAlg == "ED25519"
    && (|| c.fromBase64(v.signature).None?
        || exists canonical, key ::
             && c.fromBase64(v.canonicalBytes) == Some(canonical) && HasKey(c, v, key)
             && c.verifySignature(c.fromBase64(v.signature).value, canonical, key) == None)
  }

  /** There is a receipt, and it does not decode or its check throws. */
  ghost predicate ReceiptThrows(c: Crypto, v: Provenance)
  {
    && v.receipt.Some?
    && (|| (forall r :: !DecodesTo(c, v.receipt.value, r))
        || exists r ::
             && DecodesTo(c, v.receipt.value, r)
             && c.serverIdOf(r.serverKey) == r.serverId && c.verifyReceipt(r, v.contentId) == None)
  }

  ghost predicate Throws(c: Crypto, v: Provenance)
  {
    || c.fromBase64(v.canonicalBytes).None?
    || (forall key :: !HasKey(c, v, key))
    || SignatureThrows(c, v)
    || ReceiptThrows(c, v)
  }

  lemma {:induction false} DecodeAllIs(c: Crypto, texts: seq<string>, bs: seq<Bytes>)
    ensures DecodeAll(c, texts) == Some(bs) <==>
      |bs| == |texts| && forall i :: 0 <= i < |texts| ==> c.fromBase64(texts[i]) == Some(bs[i])
    decreases |texts|
  {
    if texts != [] && bs != [] {
      DecodeAllIs(c, texts[1..], bs[1..]);
      assert bs == [bs[0]] + bs[1..];
      assert forall i :: 0 <= i < |texts| - 1 ==> texts[1..][i] == texts[i + 1];
      if |bs| == |texts| {
        assert forall i :: 0 <= i < |bs| - 1 ==> bs[1..][i] == bs[i + 1];
        assert forall i :: 0 < i < |texts| ==> texts[i] == texts[1..][i - 1] && bs[i] == bs[1..][i - 1];
      }
    }
  }

  lemma BinaryParts(c: Crypto, t: Receipt<string>, b: seq<Bytes>)
    requires |b| == 5
    ensures DecodeAll(c, [t.serverKey, t.serverSignature, t.sth.serverKey, t.sth.rootHash, t.sth.signature]) == Some(b)
       <==> (&& c.fromBase64(t.serverKey) == Some(b[0]) && c.fromBase64(t.serverSignature) == Some(b[1])
             && c.fromBase64(t.sth.serverKey) == Some(b[2]) && c.fromBase64(t.sth.rootHash) == Some(b[3])
             && c.fromBase64(t.sth.signature) == Some(b[4]))
  {
    var texts := [t.serverKey, t.serverSignature, t.sth.serverKey, t.sth.rootHash, t.sth.signature];
    DecodeAllIs(c, texts, b);
    assert texts[0] == t.serverKey && texts[1] == t.serverSignature && texts[2] == t.sth.serverKey;
    assert texts[3] == t.sth.rootHash && texts[4] == t.sth.signature;
  }

  lemma ParsedExactly(c: Crypto, text: Receipt<string>, r: Receipt<Bytes>)
    ensures ParseReceipt(c, text) == Some(r) <==> DecodesTo(c, text, r)
  {
    var b := [r.serverKey, r.serverSignature, r.sth.serverKey, r.sth.rootHash, r.sth.signature];
    BinaryParts(c, text, b);
    DecodeAllIs(c, text.inclusionProof, r.inclusionProof);
    var texts := [text.serverKey, text.serverSignature, text.sth.serverKey, text.sth.rootHash, text.sth.signature];
    var binary := DecodeAll(c, texts);
    if ParseReceipt(c, text) == Some(r) {
      assert binary.value == b;
    }
  }

  lemma AuthorKeyIs(c: Crypto, v: Provenance, key: Bytes)
    ensures AuthorKey(c, v.authorKey) == Some(key) <==> HasKey(c, v, key)
  {
    var encoded := v.authorKey;
    assert "jbk1" <= encoded <==> |encoded| >= 4 && encoded[..4] == "jbk1";
  }

  lemma ReceiptVerdict(c: Crypto, v: Provenance)
    ensures ReceiptHolds(c, v) == Some(true) <==> Published(c, v)
    ensures ReceiptHolds(c, v) == None <==> ReceiptThrows(c, v)
  {
    if v.receipt.Some? {
      forall r ensures ParseReceipt(c, v.receipt.value) == Some(r) <==> DecodesTo(c, v.receipt.value, r) {
        ParsedExactly(c, v.receipt.value, r);
      }
      var parsed := ParseReceipt(c, v.receipt.value);
      if parsed.Some? {
        assert DecodesTo(c, v.receipt.value, parsed.value);
      }
    }
  }

  lemma SignatureVerdict(c: Crypto, v: Provenance, canonical: Bytes, key: Bytes)
    requires c.fromBase64(v.canonicalBytes) == Some(canonical) && HasKey(c, v, key)
    ensures SignatureHolds(c, v, canonical, key) == Some(true) <==> AuthorSigned(c, v)
    ensures SignatureHolds(c, v, canonical, key) == None <==> SignatureThrows(c, v)
  {}

  /** A flag is set exactly when nothing throws and what it claims is so. */
  lemma VerdictExactly(c: Crypto, v: Provenance)
    ensures var verdict := Uncached(c, v);
      && (verdict.contentId <==> !Throws(c, v) && NamesContent(c, v))
      && (verdict.authorSignature <==> !Throws(c, v) && AuthorSigned(c, v))
      && (verdict.publicationReceipt <==> !Throws(c, v) && Published(c, v))
      && (verdict.verified <==> NamesContent(c, v) && AuthorSigned(c, v) && Published(c, v))
  {
    forall key ensures AuthorKey(c, v.authorKey) == Some(key) <==> HasKey(c, v, key) {
      AuthorKeyIs(c, v, key);
    }
    ReceiptVerdict(c, v);
    var canonical, key := c.fromBase64(v.canonicalBytes), AuthorKey(c, v.authorKey);
    if canonical.Some? && key.Some? {
      SignatureVerdict(c, v, canonical.value, key.value);
    }
  }

  // ---------------------------------------------------------------- the caches

  datatype Entry = Entry(fingerprint: string, expiresAtMs: int, verdict: Verdict)

  datatype KeyEntry = KeyEntry(key: Bytes, expiresAtMs: int)

  type Entries = seq<(string, Entry)>

  type KeyEntries = seq<(string, KeyEntry)>

  ghost predicate Injective(c: Crypto)
  {
    forall v, w :: c.fingerprint(v) == c.fingerprint(w) ==> v == w
  }

  predicate Live(c: Crypto, entry: Option<Entry>, v: Provenance, nowMs: int)
  {
    entry.Some? && entry.value.expiresAtMs > nowMs && entry.value.fingerprint == c.fingerprint(v)
  }

  function Computed(c: Crypto, v: Provenance, nowMs: int): Entry
  {
    Entry(c.fingerprint(v), nowMs + TTL_MS, Uncached(c, v))
  }

  /** The entry a call leaves for its content: a live one as it was, or a new one. */
  function Served(c: Crypto, entries: Entries, v: Provenance, nowMs: int): Entry
  {
    var entry := Find(entries, v.contentId);
    if Live(c, entry, v, nowMs) then entry.value else Computed(c, v, nowMs)
  }

  function AfterCall(c: Crypto, entries: Entries, v: Provenance, nowMs: int): Entries
  {
    Put(entries, v.contentId, Served(c, entries, v, nowMs), MAX_VERIFIED_CONTENT)
  }

  function AfterKey(c: Crypto, keys: KeyEntries, encoded: string, nowMs: int): KeyEntries
  {
    var entry, key := Find(keys, encoded), AuthorKey(c, encoded);
    if entry.Some? && entry.value.expiresAtMs > nowMs then Put(keys, encoded, entry.value, MAX_AUTHOR_KEYS)
    else if key.None? then keys
    else Put(keys, encoded, KeyEntry(key.value, nowMs + TTL_MS), MAX_AUTHOR_KEYS)
  }

  /** The author keys are looked at only when the verdict is worked out and the content decodes. */
  function KeysAfterCall(c: Crypto, entries: Entries, keys: KeyEntries, v: Provenance, nowMs: int): KeyEntries
  {
    if Live(c, Find(entries, v.contentId), v, nowMs) || c.fromBase64(v.canonicalBytes).None? then keys
    else AfterKey(c, keys, v.authorKey, nowMs)
  }

  /** Every verdict kept is the one that would be worked out again. */
  ghost predicate TrueEntries(c: Crypto, entries: Entries)
  {
    forall e, v :: e in entries && e.1.fingerprint == c.fingerprint(v) ==> e.1.verdict == Uncached(c, v)
  }

  predicate TrueKeys(c: Crypto, keys: KeyEntries)
  {
    forall e :: e in keys ==> AuthorKey(c, e.0) == Some(e.1.key)
  }

  lemma CallKeepsTrue(c: Crypto, entries: Entries, v: Provenance, nowMs: int)
    requires Injective(c) && TrueEntries(c, entries)
    ensures TrueEntries(c, AfterCall(c, entries, v, nowMs))
    ensures Served(c, entries, v, nowMs).verdict == Uncached(c, v)
  {
    var served := Served(c, entries, v, nowMs);
    forall e, w | e in AfterCall(c, entries, v, nowMs) && e.1.fingerprint == c.fingerprint(w)
      ensures e.1.verdict == Uncached(c, w)
    {
      if e !in entries {
        assert e == (v.contentId, served);
      }
    }
  }

  lemma KeyKeepsTrue(c: Crypto, keys: KeyEntries, encoded: string, nowMs: int)
    requires TrueKeys(c, keys)
    ensures TrueKeys(c, AfterKey(c, keys, encoded, nowMs))
  {}

  // ---------------------------------------------------------------- the verifier

  class Verifier {
    const c: Crypto
    const verificationCache: OrderedMap<string, Entry>
    const authorKeyCache: OrderedMap<string, KeyEntry>

    constructor (c: Crypto)
      ensures this.c == c
      ensures fresh(verificationCache) && fresh(authorKeyCache)
      ensures verificationCache.entries == [] && authorKeyCache.entries == []
      ensures Valid()
    {
      this.c := c;
      verificationCache := new OrderedMap();
      authorKeyCache := new OrderedMap();
    }

    ghost predicate Valid()
      reads verificationCache, authorKeyCache
    {
      && (verificationCache as object) != authorKeyCache
      && verificationCache.Valid() && authorKeyCache.Valid()
      && TrueEntries(c, verificationCache.entries) && TrueKeys(c, authorKeyCache.entries)
    }

    /** `None` is the decoder throwing. */
    method AuthorKeyFor(encoded: string, nowMs: int) returns (key: Option<Bytes>)
      requires authorKeyCache.Valid() && TrueKeys(c, authorKeyCache.entries)
      modifies authorKeyCache
      ensures authorKeyCache.Valid() && TrueKeys(c, authorKeyCache.entries)
      ensures key == AuthorKey(c, encoded)
      ensures authorKeyCache.entries == AfterKey(c, old(authorKeyCache.entries), encoded, nowMs)
    {
      KeyKeepsTrue(c, authorKeyCache.entries, encoded, nowMs);
      var cached := authorKeyCache.Get(encoded);
      if cached.Some? && cached.value.expiresAtMs > nowMs {
        BoundedPut(authorKeyCache, encoded, cached.value, MAX_AUTHOR_KEYS);
        return Some(cached.value.key);
      }
      key := c.base32Decode(StripPrefix(encoded));
      if key.Some? {
        BoundedPut(authorKeyCache, encoded, KeyEntry(key.value, nowMs + TTL_MS), MAX_AUTHOR_KEYS);
      }
    }

    /** The part of a verification that is worked out anew when no live verdict is kept. */
    method Compute(v: Provenance, nowMs: int) returns (verdict: Verdict)
      requires authorKeyCache.Valid() && TrueKeys(c, authorKeyCache.entries)
      modifies authorKeyCache
      ensures authorKeyCache.Valid() && TrueKeys(c, authorKeyCache.entries)
      ensures verdict == Uncached(c, v)
      ensures authorKeyCache.entries == if c.fromBase64(v.canonicalBytes).None? then old(authorKeyCache.entries)
        else AfterKey(c, old(authorKeyCache.entries), v.authorKey, nowMs)
    {
      var canonical := c.fromBase64(v.canonicalBytes);
      if canonical.None? {
        return NOTHING_HOLDS;
      }
      var key := AuthorKeyFor(v.authorKey, nowMs);
      if key.None? {
        return NOTHING_HOLDS;
      }
      var contentIdValid := c.contentIdOf(canonical.value) == v.contentId;
      var signature := SignatureHolds(c, v, canonical.value, key.value);
      var receipt := ReceiptHolds(c, v);
      if signature.None? || receipt.None? {
        return NOTHING_HOLDS;
      }
      verdict := Verdict(contentIdValid, signature.value, receipt.value,
                         contentIdValid && signature.value && receipt.value);
    }

    /** The caches are invisible: the answer is that of a verifier without them, at any time. */
    method VerifyProvenance(v: Provenance, nowMs: int) returns (verdict: Verdict)
      requires Valid() && Injective(c)
      modifies verificationCache, authorKeyCache
      ensures Valid()
      ensures verdict == Uncached(c, v)
      ensures verdict.verified <==> NamesContent(c, v) && AuthorSigned(c, v) && Published(c, v)
      ensures verificationCache.entries == AfterCall(c, old(verificationCache.entries), v, nowMs)
      ensures authorKeyCache.entries ==
        KeysAfterCall(c, old(verificationCache.entries), old(authorKeyCache.entries), v, nowMs)
    {
      CallKeepsTrue(c, verificationCache.entries, v, nowMs);
      VerdictExactly(c, v);
      var proofFingerprint := c.fingerprint(v);
      var cached := verificationCache.Get(v.contentId);
      if cached.Some? && cached.value.expiresAtMs > nowMs && cached.value.fingerprint == proofFingerprint {
        BoundedPut(verificationCache, v.contentId, cached.value, MAX_VERIFIED_CONTENT);
        return cached.value.verdict;
      }
      verdict := Compute(v, nowMs);
      BoundedPut(verificationCache, v.contentId, Entry(proofFingerprint, nowMs + TTL_MS, verdict),
                 MAX_VERIFIED_CONTENT);
    }

    /** What the Seal may claim. */
    method SealStateFor(v: Option<Provenance>, nowMs: int) returns (state: SealState)
      requires Valid() && Injective(c)
      modifies verificationCache, authorKeyCache
      ensures Valid()
      ensures state.Unsigned? <==> v.None?
      ensures state.Synced? <==>
        (v.Some? && NamesContent(c, v.value) && AuthorSigned(c, v.value) && Published(c, v.value))
      ensures state.Queued? <==>
        (v.Some? && v.value.receipt.None? && NamesContent(c, v.value) && AuthorSigned(c, v.value))
    {
      if v.None? {
        return Unsigned;
      }
      VerdictExactly(c, v.value);
      var verdict := VerifyProvenance(v.value, nowMs);
      if verdict.verified {
        return Synced;
      }
      state := if verdict.contentId && verdict.authorSignature && v.value.receipt.None? then Queued else Failed;
    }
  }

  datatype SealState = Synced | Queued | Failed | Unsigned

  // ---------------------------------------------------------------- whole call sequences

  datatype Call = Call(v: Provenance, nowMs: int)

  /** The cache after calls made in order, from an empty one, with whatever the clock said. */
  function AfterCalls(c: Crypto, calls: seq<Call>): Entries
  {
    if calls == [] then []
    else
      var last := calls[|calls| - 1];
      AfterCall(c, AfterCalls(c, calls[..|calls| - 1]), last.v, last.nowMs)
  }

  function Used(calls: seq<Call>): (ids: seq<string>)
    ensures |ids| == |calls|
  {
    seq(|calls|, i requires 0 <= i < |calls| => calls[i].v.contentId)
  }

  /** The content kept is the 4096 most recently verified identifiers, oldest first. */
  lemma {:induction false} KeysAreMostRecent(c: Crypto, calls: seq<Call>)
    ensures Keys(AfterCalls(c, calls)) == LastOf(ByRecency(Used(calls)), 4096)
  {
    if calls == [] {
      assert Used(calls) == [];
    } else {
      var n := |calls| - 1;
      KeysAreMostRecent(c, calls[..n]);
      var before := AfterCalls(c, calls[..n]);
      assert Used(calls) == Used(calls[..n]) + [calls[n].v.contentId];
      PutKeepsYoungest(before, Used(calls[..n]), calls[n].v.contentId,
                       Served(c, before, calls[n].v, calls[n].nowMs), MAX_VERIFIED_CONTENT);
    }
  }

  /** The verdict was worked out by the call at `i`, which set its expiry. */
  predicate WorkedOutAt(c: Crypto, calls: seq<Call>, i: nat, e: (string, Entry))
    requires i < |calls|
  {
    e == (calls[i].v.contentId, Computed(c, calls[i].v, calls[i].nowMs))
  }

  /** No hit extends an expiry: every entry kept still expires five minutes after it was worked out. */
  lemma {:induction false} ExpiryIsFromComputing(c: Crypto, calls: seq<Call>, e: (string, Entry))
    requires e in AfterCalls(c, calls)
    ensures exists i :: 0 <= i < |calls| && WorkedOutAt(c, calls, i, e)
  {
    var n := |calls| - 1;
    var before := AfterCalls(c, calls[..n]);
    if e in before {
      ExpiryIsFromComputing(c, calls[..n], e);
      var i :| 0 <= i < n && WorkedOutAt(c, calls[..n], i, e);
      assert WorkedOutAt(c, calls, i, e);
    } else {
      assert e == (calls[n].v.contentId, Served(c, before, calls[n].v, calls[n].nowMs));
      var found := Find(before, calls[n].v.contentId);
      assert found.Some? ==> (calls[n].v.contentId, found.value) in before;
      assert WorkedOutAt(c, calls, n, e);
    }
  }

  /** What was just worked out is kept, and answers for the same value for five minutes. */
  lemma RepeatIsHit(c: Crypto, entries: Entries, v: Provenance, nowMs: int, laterMs: int)
    requires !Live(c, Find(entries, v.contentId), v, nowMs)
    ensures Live(c, Find(AfterCall(c, entries, v, nowMs), v.contentId), v, laterMs) <==> laterMs < nowMs + 300_000
  {
    PutIsFound(entries, v.contentId, Served(c, entries, v, nowMs), MAX_VERIFIED_CONTENT);
  }

  /** A verdict answered from the cache was worked out, for the same value, within five minutes of now. */
  lemma {:induction false} HitsAreRecent(c: Crypto, calls: seq<Call>, v: Provenance, nowMs: int)
    requires Injective(c) && Live(c, Find(AfterCalls(c, calls), v.contentId), v, nowMs)
    ensures exists i :: 0 <= i < |calls| && calls[i].v == v && nowMs < calls[i].nowMs + 300_000
  {
    var e := (v.contentId, Find(AfterCalls(c, calls), v.contentId).value);
    ExpiryIsFromComputing(c, calls, e);
    var i :| 0 <= i < |calls| && WorkedOutAt(c, calls, i, e);
    assert calls[i].v == v;
  }
}
