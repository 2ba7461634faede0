/** Identifiers: a prefix and the base32 text of a digest or of a public key. */
module ContentId {
  import opened Wrappers
  import opened Wire
  import opened Canonical
  import Base32
  import BitCodec

  type Hash = seq<byte> -> seq<byte>

  ghost predicate CollisionFree(sha: Hash)
  {
    forall a, b :: sha(a) == sha(b) ==> a == b
  }

  const PREFIX_CONTENT := "jb1"
  const PREFIX_IDENTITY := "jbk1"
  const PREFIX_CHANNEL := "jbc1"
  const PREFIX_SERVER := "jbs1"

  function FromCanonical(sha: Hash, canonical: seq<byte>): string
  {
    PREFIX_CONTENT + Base32.Encode(sha(canonical))
  }

  function IdOf(sha: Hash, nfc: string -> seq<byte>, e: Envelope): string
  {
    FromCanonical(sha, CanonicalBytes(nfc, e))
  }

  function KeyId(prefix: string, key: seq<byte>): string
  {
    prefix + Base32.Encode(key)
  }

  lemma PrefixedInjective(prefix: string, a: seq<byte>, b: seq<byte>)
    requires KeyId(prefix, a) == KeyId(prefix, b)
    ensures a == b
  {
    EqualLengthPrefix(prefix, prefix, Base32.Encode(a), Base32.Encode(b));
    Base32.EncodeInjective(a, b);
  }

  /** What comes after the prefix of an identifier of a key is the key. */
  lemma KeyIdTellsKey(prefix: string, key: seq<byte>)
    ensures prefix <= KeyId(prefix, key)
    ensures Base32.Decode(KeyId(prefix, key)[|prefix|..]) == Some(key)
    ensures |KeyId(prefix, key)| == |prefix| + BitCodec.CeilDiv(8 * |key|, 5)
  {
    var text := Base32.Encode(key);
    assert KeyId(prefix, key)[|prefix|..] == text;
    Base32.EncodeDecode(key);
  }

  /** A content ID is `jb1` and the digest of the canonical bytes: 55 characters for a digest of 32 bytes. */
  lemma IdTellsDigest(sha: Hash, nfc: string -> seq<byte>, e: Envelope)
    ensures var id := IdOf(sha, nfc, e);
      && "jb1" <= id
      && Base32.Decode(id[3..]) == Some(sha(CanonicalBytes(nfc, e)))
      && (|sha(CanonicalBytes(nfc, e))| == 32 ==> |id| == 55)
  {
    KeyIdTellsKey(PREFIX_CONTENT, sha(CanonicalBytes(nfc, e)));
  }

  /** Equal content IDs mean the same content, whoever signed it and however often. */
  lemma ContentIdIsContent(sha: Hash, nfc: string -> seq<byte>, d: Envelope, e: Envelope)
    requires CollisionFree(sha) && InRange(d) && InRange(e)
    ensures IdOf(sha, nfc, d) == IdOf(sha, nfc, e) <==> SameContent(nfc, d, e)
  {
    CanonicalInjective(nfc, d, e);
    if IdOf(sha, nfc, d) == IdOf(sha, nfc, e) {
      PrefixedInjective(PREFIX_CONTENT, sha(CanonicalBytes(nfc, d)), sha(CanonicalBytes(nfc, e)));
    }
  }

  lemma ResigningKeepsId(sha: Hash, nfc: string -> seq<byte>, e: Envelope, signature: seq<byte>)
    ensures IdOf(sha, nfc, e.(signature := signature)) == IdOf(sha, nfc, e)
  {
    assert Slots(nfc, e.(signature := signature)) == Slots(nfc, e);
  }

  /** An identifier tells what kind of thing it names: no two kinds share a text. */
  lemma KindsApart(p: string, q: string, a: seq<byte>, b: seq<byte>)
    requires p in {PREFIX_CONTENT, PREFIX_IDENTITY, PREFIX_CHANNEL, PREFIX_SERVER}
    requires q in {PREFIX_CONTENT, PREFIX_IDENTITY, PREFIX_CHANNEL, PREFIX_SERVER}
    requires p + Base32.Encode(a) == q + Base32.Encode(b)
    ensures p == q && a == b
  {
    assert (p + Base32.Encode(a))[2] == p[2] && (q + Base32.Encode(b))[2] == q[2];
    PrefixedInjective(p, a, b);
  }
}
