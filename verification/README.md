# Jagoo Bahee: verified models

Jagoo Bahee is a messaging system meant to keep working when the network does not. Every post is a
signed envelope whose identifier is the hash of its canonical bytes; phones pass envelopes to each
other over a local mesh; a client keeps an outbox that survives crashes, forwards receipts to
independent audit logs, verifies what it shows on the device, and remembers every server address it
has seen. This project models those parts and proves what the rest of the system rests on.

How the models are put together:

- **Wire format** (`Wire`, `Canonical`, `Decode`, `Refusals`, `Reader`, `ContentId`, `Base32`, `Base64Url`,
  `BitCodec`, `Numbers`). The field-by-field writers of the Rust and the Python reference are methods
  over a byte buffer, both proved against one specification, which is then proved injective. The
  TypeScript decoder is specified independently and related to the encoder in both directions.
- **Mesh** (`Bloom`, `Quota`, `JsonNumbers`, `Mesh`, `MeshRows`, `MeshQuota`, `Reconcile`, `Flood`,
  `FloodReach`, `FloodCoverage`, `FloodHops`, `JbPack`). One device's router, stores and Bloom filter
  are classes proved against functions; the network is a state machine of devices and packets in flight
  that uses the same functions.
- **Outbox** (`OutboxRecords`, `Outbox`, `OutboxRuns`, `Sorting`). The operations one after another,
  as a class, and a state machine of overlapping deliveries with a crash point after every write.
- **Audit log** (`AuditChain`, `AuditText`, `AuditLog`, `AuditQueue`, `AuditSerial`, `AuditClient`,
  `AuditNotes`). The hash chain, its text file and loader, the promises through which appends wait
  for each other and what follows from them, and the retrying client with what it notes.
- **Verification cache** (`OrderedMaps`, `BoundedMap`, `VerifyCache`), **channel keys**
  (`ChannelKeys`), **peer directory** (`PeerDirectory`, `PeerHistory`, `PeerDialling`) and **line
  fitting** (`LinearFit`).

What is assumed, always as a parameter of the theorem that needs it: SHA-256 and the key derivation
do not collide; the hexadecimal digest is not empty and has no NUL; NFC with UTF-8 encoding is some
function of the text and UTF-8 decoding a partial one; JSON of a record is one non-empty line that
reads back as the record; signature, receipt and certificate checks, the domain table, clocks, the
network and disk success are functions or inputs. A read-modify-write of one storage key, a file
append and a service's append are each one step. JavaScript numbers are integers except where the
decoder rounds them; the numbers of a received mesh frame may be missing, null or fractional.

What the proofs found, each stated by a member of the table:

- The TypeScript decoder accepts creation times of 2^64 and more, which no fixed-width encoder
  writes; a negative time reads back as its unsigned form; text that does not survive UTF-8 decoding
  and NFC again is refused (`Decode.WideTimeAccepted`, `Decode.ProducibleExactly`,
  `Decode.DecodeEncoded`). Over unbounded integers two envelopes share their bytes exactly when their
  numbers do (`Canonical.CanonicalExactly`, `Canonical.WideTimesCollide`).
- The quota lets at most 1999 envelopes through in any hour, one below twice the window's limit, and
  1999 is reached (`Quota.SlidingBound`, `Quota.BoundIsReached`); this is what a router takes in of one
  peer whatever arrives (`MeshQuota.PeerIsLimited`).
- A mesh frame without hops and times passes every check on them, is stored without an expiry and is
  relayed with null for its hops; a stored row is within the bounds exactly when its hops are whole
  and both its times are there (`MeshRows.UnnumberedTravels`, `MeshRows.RowBoundsExactly`).
- A flood covers the network exactly when nobody is cut off by the hop limit. Up to eight devices
  nobody is; with nine a way round through the origin can use the hops up (`FloodCoverage.FloodCovers`,
  `FloodCoverage.SmallNetworkCovers`, `FloodHops.ProgramHopsRunOut`).
- A row imported from a bundle made before the import is refused by every peer it is offered to,
  because its life is counted from its creation (`JbPack.ImportedRowStale`).
- A chain cut off at the end is accepted; only the head tells (`AuditChain.TruncationAccepted`). A
  data file whose last line was not ended is refused after the next append
  (`AuditText.WrittenReadsBack`, `AuditLog.FirstAppendReadsBack`).
- Without the handler that turns a failed append into a settled tail, every append after a failed one
  would be passed over (`AuditQueue.SkippedExactly`).
- A delivered note of an audit service is forgotten when the service leaves the list
  (`AuditClient.NoteSurvivesExactly`), when the certificate is stored anew, and, though the service
  stays in every list, exactly when a forwarding under way can still write its record back without the
  note (`AuditNotes.NoteStaysExactly`, `AuditNotes.LateWriteForgets`).
- Nothing stops a second delivery of an entry. Clearing the outbox is undone, and a receipted entry
  goes back to pending and is sent again, exactly for entries with a delivery under way
  (`OutboxRuns.SecondDelivery`, `OutboxRuns.ClearingFinalExactly`, `OutboxRuns.ReceiptFinalExactly`,
  `OutboxRuns.OverlapUnreceipts`).
- An entry that is cleared while it is delivered and queued again for another server has the old server
  again when that delivery fails; an entry keeps its bytes and target exactly when no delivery of it
  under way carries others
  (`OutboxRuns.OldTargetReturns`, `OutboxRuns.FieldsStayExactly`).
- Rotating a channel can give a key index out twice exactly when it is the channel of an index after
  the replacement's, which the vault cannot hold yet; and a rotation moves its channel's signing key
  back exactly when another that gave a higher index was adopted since it began
  (`ChannelKeys.RotationReusesExactly`, `ChannelKeys.UnownedRotationReuses`,
  `ChannelKeys.MovesBackExactly`, `ChannelKeys.OverlapMovesBack`).
- Endpoints whose scope contains a bar can overwrite each other; over a whole history addresses are
  lost exactly when two have the same key text (`PeerDirectory.MergeKeepsPairsExactly`,
  `PeerHistory.NeverForgets`).

## Model

| member | source | states |
|---|---|---|
| Wire.WriteVarint | crates/jb-core/src/wire.rs:14-21 | The shifting loop appends exactly the base-128 varint of the value |
| Wire.WriteTag | crates/jb-core/src/wire.rs:23-25 | Appends the varint of the field number shifted by three within 32 bits, or-ed with the wire type; for a type below eight, the number modulo 2^29 times eight plus the type |
| Wire.WriteVarintField | crates/jb-core/src/wire.rs:27-30 | Appends exactly the encoding of a varint field, its number modulo 2^29 |
| Wire.WriteLenDelimited | crates/jb-core/src/wire.rs:32-36 | Appends exactly the encoding of a length-delimited field, its number modulo 2^29 |
| Wire.PyWriteVarint | tools/vectors/jb_reference.py:55-62 | The unbounded-integer writer appends the varint of the value, a negative one masked to 64 bits |
| Wire.PyWriteVarintField | tools/vectors/jb_reference.py:69-71 | The second implementation appends the same varint field |
| Wire.PyWriteLenDelimited | tools/vectors/jb_reference.py:74-77 | The second implementation appends the same length-delimited field |
| Wire.VarintLength | crates/jb-core/src/wire.rs:14-21 | A varint takes at most n bytes exactly when the value is below 128^n |
| Wire.VarintBounds | crates/jb-core/src/wire.rs:12-21 | No 64-bit value takes more than ten bytes, and every negative time takes exactly ten |
| Wire.ReadBackVarint | packages/sdk-ts/src/core/decode.ts:51-70 | Reading a written varint followed by any bytes gives the value and those bytes |
| Wire.VarintIsMinimal | crates/jb-core/src/wire.rs:14-21 | Of all byte strings read as a value, the written varint is the one shortest |
| Wire.VarintPrefixFree | crates/jb-core/src/wire.rs:14-21 | No varint is a prefix of another: equal concatenations have equal values and equal rests |
| Wire.FieldPrefixFree | crates/jb-core/src/wire.rs:27-36 | Byte strings that begin with two encoded fields and are equal begin with the same field |
| Wire.EncodeFieldsInjective | crates/jb-core/src/wire.rs:27-36 | A byte string is the encoding of at most one list of fields |
| Canonical.EncodeAntiAbuse | crates/jb-core/src/canonical.rs:52-67 | The Rust writer of the nested message emits its non-empty fields in ascending order |
| Canonical.EncodeCanonical | crates/jb-core/src/canonical.rs:89-136 | The Rust writer of fields 1 to 12 produces the specified bytes, which CanonicalLayout spells out, for every envelope in its range |
| Canonical.EncodeSigned | crates/jb-core/src/canonical.rs:139-145 | The Rust writer of the wire bytes produces the specified bytes with the signature |
| Canonical.CanonicalLayout | crates/jb-core/src/canonical.rs:89-145 | The bytes spelled out: each field under its tag byte and left out when it is zero or empty, the block written exactly when one of its four parts is there, the signature last |
| Canonical.PowOnlyBlockWritten | crates/jb-core/src/canonical.rs:48-67 | A block that holds nothing but the proof of work 01 is written, as 62 03 22 01 01 |
| Canonical.PyEncodeAntiAbuse | tools/vectors/jb_reference.py:125-135 | The Python writer of the nested message produces the same bytes as the specification |
| Canonical.PyEncodeCanonical | tools/vectors/jb_reference.py:155-189 | The Python writer over unbounded integers produces the same bytes, hence those of the Rust writer on every envelope in range |
| Canonical.EmitInjective | crates/jb-core/src/canonical.rs:90-136 | Lists of omittable fields with the same numbers emit the same bytes only if they are the same |
| Canonical.AntiAbuseInjective | crates/jb-core/src/canonical.rs:52-67 | Anti-abuse blocks with the same bytes are the same block |
| Canonical.CanonicalExactly | tools/vectors/jb_reference.py:155-189 | Over all integers, two envelopes have the same canonical bytes exactly when fields 1 to 11 agree and credential, nullifier, epoch and proof of work agree one by one, empty or zero where there is no block; texts up to NFC, numbers by being zero and by their unsigned form |
| Canonical.CanonicalInjective | crates/jb-core/src/canonical.rs:89-136 | So in the range of the Rust types equal canonical bytes mean equal content, field by field, a missing anti-abuse block reading as an all-empty one |
| Canonical.SignedExactly | crates/jb-core/src/canonical.rs:138-145 | Over all integers two envelopes have the same wire bytes exactly when their contents are written alike and their signatures are equal |
| Canonical.SignedInjective | crates/jb-core/src/canonical.rs:138-145 | Two envelopes in range have the same wire bytes exactly when their content and their signature agree |
| Canonical.WideTimesCollide | tools/vectors/jb_reference.py:177-178 | Two creation times give the same bytes exactly when they are both zero or neither is and their unsigned forms are equal; never two of 64 bits, but -1 and 2^64 - 1 |
| ContentId.ContentIdIsContent | crates/jb-core/src/content_id.rs:18-25 | With a collision-free hash two envelopes in range have the same content ID exactly when they have the same content |
| ContentId.IdTellsDigest | crates/jb-core/src/content_id.rs:18-25 | The text after jb1 decodes to the digest of the canonical bytes, and an ID has 55 characters for a digest of 32 bytes |
| ContentId.KeyIdTellsKey | crates/jb-core/src/content_id.rs:27-37 | The text after the prefix of an identity, channel or server identifier decodes to the key |
| ContentId.ResigningKeepsId | crates/jb-core/src/content_id.rs:23-25 | Replacing the signature never changes the content ID |
| ContentId.PrefixedInjective | crates/jb-core/src/content_id.rs:27-37 | Prefixed identifiers of different keys are different |
| ContentId.KindsApart | crates/jb-core/src/content_id.rs:13-37 | Content, identity, channel and server identifiers with the same text are of the same kind and of the same bytes |
| Base32.EncodeRust | crates/jb-core/src/base32.rs:8-26 | The loop over a 32-bit accumulator that sheds high bits writes the RFC 4648 base32 text |
| Base32.EncodePython | tools/vectors/jb_reference.py:91-108 | The loop over a never-masked accumulator writes the same text |
| Base32.DecodeRust | crates/jb-core/src/base32.rs:28-50 | The decoding loop yields the decoded bytes, or nothing exactly when a character is outside the alphabet |
| Base32.EncodeDecode | crates/jb-core/src/base32.rs:8-50 | Decoding an encoding, also after upper-casing, gives the data back, and the text has ceil(8n/5) characters |
| Base32.EncodeInjective | crates/jb-core/src/base32.rs:8-26 | Different data have different texts |
| BitCodec.RegroupRoundTrip | crates/jb-core/src/base32.rs:8-50 | Regrouping n-bit digits into smaller groups, zero-filled, and back loses nothing |
| BitCodec.ShiftIn | crates/jb-core/src/base32.rs:14-15 | Shifting a digit in keeps the pending bits in the accumulator's low end, whatever is shed above bit 32 |
| Base64Url.RoundTrip | frontend/src/offline/mesh.ts:23-32 | Decoding an encoding with the URL alphabet and stripped padding gives the data back |
| Decode.ParsedVarintShort | packages/sdk-ts/src/core/decode.ts:51-70 | Whatever value the ten-byte reader returns has a varint of at most ten bytes |
| Decode.ToNumberFacts | packages/sdk-ts/src/core/decode.ts:95-102 | Conversion to a double is exact up to 2^53 and keeps values beyond it beyond it |
| Decode.NearestDouble | packages/sdk-ts/src/core/decode.ts:95-102 | A number between 2^(52+n) and 2^(53+n) becomes the nearest multiple of 2^n, the even one at a tie |
| Decode.ReadBackFields | packages/sdk-ts/src/core/decode.ts:89-111 | Reading the encoding of readable fields gives exactly those fields |
| Decode.DecodeEncoded | packages/sdk-ts/src/core/decode.ts:179-275 | An encoded envelope is accepted exactly when its texts survive decoding and NFC, and then decodes to itself as received: times unsigned, texts decoded, an empty block absent |
| Decode.DecodedFields | packages/sdk-ts/src/core/decode.ts:179-275 | A decoded encoding has what was encoded, field by field: unsigned numbers, texts of the same bytes, and credential, nullifier, epoch and proof of work read off the block |
| Decode.AcceptedIsReceived | packages/sdk-ts/src/core/decode.ts:179-275 | Whatever is accepted is in the wire range, survives decoding, and is the received form of itself |
| Decode.AcceptedExactly | packages/sdk-ts/src/core/decode.ts:173-275 | The decoder accepts exactly the signed encodings of envelopes in the wire range whose texts survive |
| Decode.OneAcceptedForm | packages/sdk-ts/src/core/decode.ts:265-275 | Two accepted inputs that decode to the same content and signature are the same bytes |
| Decode.ProducibleExactly | packages/sdk-ts/src/core/decode.ts:238-247 | An accepted input is one a fixed-width encoder can produce exactly when its decoded numbers are in range |
| Decode.WideTimeAccepted | packages/sdk-ts/src/core/decode.ts:238-240 | A creation time of 2^64 is accepted, which is out of that range |
| Refusals.VarintRefusedExactly | packages/sdk-ts/src/core/decode.ts:55-70 | A varint is refused as truncated exactly when the bytes stop before it ends, and as too long exactly when ten bytes have not ended it |
| Refusals.FieldRefused | packages/sdk-ts/src/core/decode.ts:93-109 | Field number 0, a wire type other than 0 and 2, and a length past the end are refused, each with its error |
| Refusals.OrderRefused | packages/sdk-ts/src/core/decode.ts:117-126 | The first field number that does not grow is the error: repeated if it is the same, out of order if it is smaller |
| Refusals.FaultRefused | packages/sdk-ts/src/core/decode.ts:212-257 | In ascending fields the first faulty one is the error: an unknown number, text that is not UTF-8, or a block that does not decode |
| Refusals.BlockRefused | packages/sdk-ts/src/core/decode.ts:128-161 | In the nested message too: order first, then the first unknown number |
| Refusals.OtherwiseOtherForm | packages/sdk-ts/src/core/decode.ts:265-275 | Input without any of these faults is accepted or refused as another form of what it decodes to |
| Reader.ByteReader.Varint | packages/sdk-ts/src/core/decode.ts:55-70 | The reading loop returns and consumes what the varint specification does, with the same errors |
| Reader.ByteReader.Take | packages/sdk-ts/src/core/decode.ts:72-78 | Takes exactly the next n bytes, or fails when fewer are left |
| Reader.ReadField | packages/sdk-ts/src/core/decode.ts:93-109 | One turn of the field loop reads one field as specified, with the same errors |
| Reader.ReadRest | packages/sdk-ts/src/core/decode.ts:93-110 | The field loop over what is left of a buffer comes to what the specification says of the whole |
| Reader.ReadFields | packages/sdk-ts/src/core/decode.ts:89-111 | Returns exactly the specified fields of a buffer or the first error |
| Reader.AssertAscendingUnique | packages/sdk-ts/src/core/decode.ts:117-126 | Returns the first repeated or out-of-order field, if there is one |
| Reader.Assemble | packages/sdk-ts/src/core/decode.ts:212-257 | The accumulating switch finds what looking each number up in the whole list finds, or the first field error |
| Reader.DecodeSignedEnvelope | packages/sdk-ts/src/core/decode.ts:179-275 | The program's decoder is the specified one on every input, errors included |
| Bloom.ComputeHash | frontend/src/offline/mesh.ts:211-218 | The accumulator loop computes seeded 32-bit FNV-1a of the UTF-8 bytes |
| Bloom.PositionsAre | frontend/src/offline/mesh.ts:228-233 | An identifier stands for five positions, the five seeded hashes modulo 2048 |
| Bloom.BitIs | frontend/src/offline/mesh.ts:231-238 | Bit k of a byte is the one worth 2^k |
| Bloom.MeshBloom.Add | frontend/src/offline/mesh.ts:228-233 | Adding sets exactly the five positions of the identifier and clears none |
| Bloom.MeshBloom.Contains | frontend/src/offline/mesh.ts:235-241 | Answers yes exactly when all five positions are set |
| Bloom.Received | frontend/src/offline/mesh.ts:223-226 | A received text gives its 256 bytes, a blank filter for the empty text, an error for any other length |
| Bloom.SentIsReceived | frontend/src/offline/mesh.ts:223-245 | A filter that was encoded is received bit for bit |
| Bloom.Summarise | frontend/src/offline/mesh.ts:267-269 | Adding identifiers in turn sets exactly the union of their positions |
| Bloom.SummaryCovers | frontend/src/offline/mesh.ts:220-246 | After travelling as text a summary answers yes for every identifier added, and for another exactly when its positions are all covered |
| Quota.SpendKeepsValid | frontend/src/offline/mesh.ts:288-302 | A charge keeps a window within its limits and is refused exactly when the current one is full |
| Quota.FixedWindow | frontend/src/offline/mesh.ts:288-302 | From an opening charge on, at most 1000 envelopes and 8 MiB are admitted before the window is over |
| Quota.SlidingBound | frontend/src/offline/mesh.ts:288-302 | With a clock that does not go back, any interval of at most an hour admits at most 1999 envelopes and 16 MiB |
| Quota.BoundIsReached | frontend/src/offline/mesh.ts:294-301 | A run in which one hour admits 1999 envelopes |
| Mesh.MeshStore.PutRow | frontend/src/offline/mesh.ts:199-204 | Appends the row to its plane, or answers duplicate and changes nothing |
| Mesh.MeshRouter.Spend | frontend/src/offline/mesh.ts:288-302 | Charges the peer as specified; a refusal leaves all quotas as they were |
| Mesh.MeshRouter.ReceiveFrame | frontend/src/offline/mesh.ts:304-354 | The router's checks in order, its new stores and quotas, its answer and its relay are the specified ones, also for frames whose numbers are missing, null or fractional |
| Mesh.MeshVerifiedExactly | frontend/src/offline/mesh.ts:132-169 | Bytes are verified as an envelope exactly when they decode to it, its domain is known, they are within the size of the domain, version is 1, plane and priority are the domain's and not BULK, the ID is theirs, the signature verifies, and the certificate does if the domain asks for one |
| Mesh.FirstFailedCheck | frontend/src/offline/mesh.ts:139-156 | The reason for a refusal is the first check that fails, in the order of the program |
| Mesh.NeverNonCanonical | frontend/src/offline/mesh.ts:154 | The re-encoding check after decoding never fires, the decoder having made it |
| MeshRows.AuthenticIdsDeterminePlane | frontend/src/offline/mesh.ts:132-161 | Rows authentic under one identifier are in one plane, so the two stores never hold it twice |
| MeshRows.PutKeepsSound | frontend/src/offline/mesh.ts:199-204 | Storing an authentic row keeps every identifier unique over both stores and loses no row |
| MeshRows.MeshVerifierTrustworthy | frontend/src/offline/mesh.ts:132-169 | The program's verifier lets through only what makes a row that passes every check: signature, size, version, plane, priority, identifier, no BULK, and the certificate where one is asked for |
| MeshRows.ReceiveKeeps | frontend/src/offline/mesh.ts:304-354 | Receiving any frame keeps stores sound and growing, relays only what is newly stored, and a stored row passed the hop and age checks and has no BULK class |
| MeshRows.RowBoundsExactly | frontend/src/offline/mesh.ts:97-105 | Such a row has hops 0 to 7, an expiry to come and at most 72 hours to live exactly when its hops are a whole number and neither of its times is missing |
| MeshRows.UnnumberedTravels | frontend/src/offline/mesh.ts:304-341 | A frame without hops and times is never too old, is stored so, and is relayed with null for its hops, which the next device accepts again |
| MeshRows.ReceiveKeepsRows | frontend/src/offline/mesh.ts:304-354 | The same for the program's own verifier, assuming a collision-free hash only; each received row's bytes pass the signature and size checks under its identifier |
| MeshRows.ReceiveKeepsCertified | frontend/src/offline/mesh.ts:304-354 | A device whose rows all have the certificates their domains ask for stays so |
| Reconcile.Summary | frontend/src/offline/mesh.ts:262-277 | The summary's bits are those of the unexpired rows and the additional identifiers, its count their number |
| Reconcile.MissingForPeer | frontend/src/offline/mesh.ts:279-286 | Offers the first 128 rows in store order that the received filter does not contain, or fails for a bad filter |
| Reconcile.NothingResent | frontend/src/offline/mesh.ts:262-286 | A peer that got a device's summary offers at most 128 rows, in its store order, none the device holds unexpired or named, and leaves out only covered or surplus ones |
| MeshQuota.ReceiveAnswers | frontend/src/offline/mesh.ts:304-354 | The answer to any frame: hop limit, expiry, malformed text and quota exactly when the stated bounds are broken, in that order, then the verifier's reason, then duplicate or stored |
| MeshQuota.StoredRowIs | frontend/src/offline/mesh.ts:328-337 | A stored frame becomes the last row of its plane with what the frame said, and nothing else changes |
| MeshQuota.ReceiveCharges | frontend/src/offline/mesh.ts:321-322 | A frame within its bounds that decodes is charged to its peer, genuine or not, and to nobody else |
| MeshQuota.PeerIdExactly | frontend/src/offline/lan.ts:146-147 | The identity charged is that of the first known peer at the address, and the address if there is none |
| MeshQuota.PeersApart | frontend/src/offline/lan.ts:146-147 | Frames from two known peers with different ids never touch each other's allowance |
| MeshQuota.DeliveryCharges | frontend/src/offline/lan.ts:138-147 | In the network a delivery is charged to the peer it came from by the device it came to, and changes no other allowance anywhere |
| MeshQuota.PeerIsLimited | frontend/src/offline/mesh.ts:288-327 | Whatever frames arrive, in any hour a router stores or finds held already at most 1999 frames and 16 MiB of one peer |
| Flood.FanoutExact | frontend/src/offline/lan.ts:168-171 | A relay goes to every peer except the host it came from, and nowhere else |
| Flood.LanNode.OnFrame | frontend/src/offline/lan.ts:138-172 | A frame changes the stores as the router says and sends the fan-out exactly when it was newly stored |
| Flood.LanNode.RelayToOthers | frontend/src/offline/lan.ts:168-171 | The filtering loop produces the fan-out |
| Flood.StepDecreases | frontend/src/offline/lan.ts:165-171 | Every delivery or loss lowers (missing device and identifier pairs) times degree plus frames in flight, and keeps every device sound |
| Flood.FloodTerminates | frontend/src/offline/lan.ts:138-172 | Any run without a new offer ends within that measure, every device sound and no identifier stored twice |
| Flood.ProgramIsSound | frontend/src/offline/mesh.ts:254-355 | A network of devices that run the program's verifier meets what termination and completeness ask |
| FloodReach.ApplyInv | frontend/src/offline/lan.ts:138-172 | Every delivery keeps the account of what was passed on and sent: each frame is in flight, held, refused or lost at each peer |
| FloodReach.GenuineBytesExactly | frontend/src/offline/mesh.ts:132-169 | Genuine bytes are those that decode to an envelope that passes every check but the certificate's and is no BULK |
| FloodReach.SendInv | frontend/src/offline/lan.ts:92-136 | So does sending a peer a stored row with its hops or an own frame |
| FloodCoverage.QuiescentComplete | frontend/src/offline/lan.ts:92-172 | Over every history of frames sent, stored rows offered again, deliveries and losses that comes to rest, in a network of any size: every peer a frame was passed on or sent to holds it or refused it for used-up hops, if nothing was lost or refused for age, quota or certificate |
| FloodCoverage.FloodCovers | frontend/src/offline/lan.ts:92-172 | Then every path of peers from a device that has the identifier leads to devices that have it, exactly when whoever refused it for its hops has it, once the devices it came from have sent it to each of their peers |
| FloodCoverage.SmallNetworkHopsSuffice | frontend/src/offline/mesh.ts:313 | In a network of at most eight devices whoever refuses a frame for its hops holds it |
| FloodCoverage.SmallNetworkCovers | frontend/src/offline/lan.ts:92-172 | So there every such path is covered, if rows held at the start are no older in hops than their holders are many |
| FloodHops.ProgramHopsRunOut | frontend/src/offline/mesh.ts:313-340 | With nine devices there is a run without loss or other refusals that comes to rest with the last device of a path left out, its hops used up by a way round through the origin |
| FloodReach.WorldRunTerminates | frontend/src/offline/lan.ts:165-171 | Such runs come to rest within the same measure |
| JbPack.ImportJbPack | frontend/src/offline/jbpack.ts:49-93 | The import loop leaves the specified stores and counts, or fails for an unsupported bundle and changes nothing |
| JbPack.OpenedExactly | frontend/src/offline/jbpack.ts:55-64 | A bundle opens exactly when it is within 16 MiB, of the one format and version, and of at most 10000 items |
| JbPack.ImportConserves | frontend/src/offline/jbpack.ts:65-92 | Imported, duplicates and rejected add up to the items, rejected are exactly the invalid ones, and every valid envelope is in the store whatever its neighbours are |
| JbPack.ImportTwice | frontend/src/offline/jbpack.ts:68-92 | Importing the same items again, at any time and after any other growth, imports none |
| JbPack.ExportImport | frontend/src/offline/jbpack.ts:33-93 | Exporting valid distinct rows and importing them into an empty store restores every (identifier, envelope) pair |
| JbPack.ImportKeepsSound | frontend/src/offline/jbpack.ts:68-92 | Import keeps identifiers unique over both stores and authentic |
| JbPack.ProgramImportKeepsSound | frontend/src/offline/jbpack.ts:71-85 | Importing any bundle with the program's verifier keeps the rows of a device authentic, and certified if they were |
| JbPack.PortableVerifiedExactly | frontend/src/offline/jbpack.ts:71-75 | A bundle item is verified exactly by the checks of the mesh, BULK being let through |
| JbPack.ImportedRowsAre | frontend/src/offline/jbpack.ts:76-85 | Every row an import adds is made from a verified item: its bytes and identifier, no hops, expiring 72 hours after the import |
| JbPack.ImportedHopsPass | frontend/src/offline/jbpack.ts:83 | No peer refuses an imported row for its hops |
| JbPack.TimeIsExact | frontend/src/offline/jbpack.ts:81 | The origin of an imported row is its creation time, exact up to 2^53 |
| JbPack.ImportedRowStale | frontend/src/offline/jbpack.ts:81-82 | A peer that is offered an imported row refuses it for its age exactly when it was created before the import, is from the future or the row has expired |
| OutboxRecords.BackoffBounds | frontend/src/offline/outbox.ts:226-227 | The wait grows with every failure from 2 s to 256 s and stops growing at the eighth; the 300 s cap never binds |
| OutboxRecords.EndedSays | frontend/src/offline/outbox.ts:203-240 | A submission's end leaves the receipt, nothing, or one more attempt due a second times 2^min(attempts, 8) later |
| OutboxRecords.ReplaceLooksUp | frontend/src/offline/outbox.ts:90-93 | Replacing keeps identifiers unique, puts the record under its own and leaves every other entry as read |
| OutboxRecords.EnqueuedLooksUp | frontend/src/offline/outbox.ts:113-132 | Queueing adds a new record for a new identifier and changes no entry that is there |
| Outbox.OrderIsCanonical | frontend/src/offline/outbox.ts:95-104 | The queue is its entries in one order, whatever the storage order: priorities 1 to 4 ascending, unknown ones last, earlier queued first, then by identifier |
| Outbox.Store.Enqueue | frontend/src/offline/outbox.ts:113-132 | Returns the entry already there or the new record, and stores exactly that |
| Outbox.Store.Deliver | frontend/src/offline/outbox.ts:193-241 | Storage and result are those of the specified delivery; the entry keeps its receipt, is gone, or is pending with one more attempt and its wait of 2 to 256 seconds; private envelopes are copied to nobody |
| Outbox.Store.Submit | frontend/src/offline/outbox.ts:247-261 | Queues before it sends, and sends nothing for an entry that has its receipt |
| Outbox.Store.DeliverEach | frontend/src/offline/outbox.ts:272-284 | The loop delivers every listed entry in order, whatever becomes of the others, and counts receipts and rejections |
| Outbox.Store.Drain | frontend/src/offline/outbox.ts:263-291 | Attempts the due entries in order, leaves what delivering them in turn leaves, and reports the four figures |
| Outbox.Store.ClearPlane | frontend/src/offline/outbox.ts:303-305 | Only the entries of the plane disappear: every identifier is looked up as before or, if its entry was of the plane, not found, and the order stays |
| Outbox.Store.ClearNode | frontend/src/offline/outbox.ts:323-325 | Only the entries for the server disappear, closing slashes apart; every other identifier is looked up as before, and the order stays |
| Outbox.DueMembers | frontend/src/offline/outbox.ts:272 | Due are exactly the entries without a receipt whose wait is over |
| Outbox.DueByUrgency | frontend/src/offline/outbox.ts:95-104 | Due entries come once each, smaller priorities first, unknown ones last, and at a tie the one queued earlier |
| Outbox.DrainedLooksUp | frontend/src/offline/outbox.ts:272-284 | After a drain each attempted entry is as its own submission left it and every other as it was |
| Outbox.DrainReportAddsUp | frontend/src/offline/outbox.ts:285-290 | Attempts are receipts, rejections and failures; what waited before is receipted, rejected or waiting after |
| Outbox.DueAfterDrain | frontend/src/offline/outbox.ts:263-291 | A drain leaves due nothing it attempted but failures |
| Outbox.DueAfterDelivery | frontend/src/offline/outbox.ts:226-233 | After a failure at t of an entry with a attempts it is due at u exactly when t + 1000 * 2^min(a + 1, 8) <= u, so never before two seconds and always after 256; after a receipt or a refusal never |
| Outbox.DueAfterAttempt | frontend/src/offline/outbox.ts:263-291 | The same after a whole drain, for each entry it attempted |
| Outbox.NewEntryIsDue | frontend/src/offline/outbox.ts:113-132 | A new entry has the input's fields, no attempts, and is due at once |
| Outbox.SecondDrainIdle | frontend/src/offline/outbox.ts:263-291 | A second drain at the same time after an all-accepting one attempts nothing |
| OutboxRuns.EntryAfterStep | frontend/src/offline/outbox.ts:72-241 | One step, whatever deliveries are under way, removes an entry exactly by a rejection or a clearing that covers it, changes it only by a delivery of its identifier and then to that delivery's fields, and adds nothing but what is queued or written back; a delivery that ends leaves its receipt, nothing, or one more attempt and its wait |
| OutboxRuns.RunUnique | frontend/src/offline/outbox.ts:90-132 | Identifiers that are unique stay so over every run, overlapping deliveries or not |
| OutboxRuns.EveryRunIsProper | frontend/src/offline/outbox.ts:72-241 | Every run from an empty outbox, with crashes and overlapping deliveries, keeps identifiers unique and receipts exactly on receipted entries |
| OutboxRuns.StaysUnlessDropped | frontend/src/offline/outbox.ts:90-93 | Over every run an entry that no step rejects or clears is there at the end |
| OutboxRuns.FieldsStayExactly | frontend/src/offline/outbox.ts:197-241 | An entry keeps its bytes, target, plane, priority and queue time over every run that does not drop it exactly when every delivery of its identifier under way carries them |
| OutboxRuns.OldTargetReturns | frontend/src/offline/outbox.ts:228-233 | Cleared while it is delivered and queued again for another server, an entry has the old server again when the delivery fails |
| OutboxRuns.NeverSubmittedAgain | frontend/src/offline/outbox.ts:247-261 | With one delivery at a time up to its receipt, a record stays as it is and is never sent again over every later run that does not clear it |
| OutboxRuns.AttemptsGrow | frontend/src/offline/outbox.ts:226-233 | With one delivery at a time the attempts counted for an entry that is not dropped never go down |
| OutboxRuns.CrashReturnsToPending | frontend/src/offline/outbox.ts:76-80 | After a stop at any moment an entry without a receipt reads as pending and is taken up with its exact bytes |
| OutboxRuns.ClearingFinalExactly | frontend/src/offline/outbox.ts:303-325 | A clearing is final for an entry it covers exactly when no delivery of the entry is under way |
| OutboxRuns.RejectionFinalExactly | frontend/src/offline/outbox.ts:221-225 | A permanent rejection is final exactly when no other delivery of the entry is under way |
| OutboxRuns.SecondDelivery | frontend/src/offline/outbox.ts:76-80 | An entry being sent reads as pending and can be taken up a second time |
| OutboxRuns.ReceiptFinalExactly | frontend/src/offline/outbox.ts:197-241 | A receipted entry stays as it is, and is never sent again, over every run that does not clear it, overlapping or not, exactly when no delivery of it is under way |
| OutboxRuns.OverlapUnreceipts | frontend/src/offline/outbox.ts:211-233 | The failing run: of two overlapping deliveries one succeeds and the other then takes the entry back to pending |
| Sorting.SortedPermutation | frontend/src/offline/outbox.ts:97-104 | Sorting by an order gives a sorted permutation |
| Sorting.Stable | frontend/src/data/peer-directory.ts:165-170 | Elements that tie keep their order |
| Sorting.SortedUnique | frontend/src/offline/outbox.ts:97-104 | Where no two different elements tie there is one sorted arrangement only |
| AuditChain.PreimageSplits | services/audit-log/src/store.ts:33-46 | The NUL-separated preimage comes from one item, time and previous hash only |
| AuditChain.DecimalReads | services/audit-log/src/store.ts:38-45 | The time in the preimage is its decimal text, without leading zeros |
| AuditChain.SameHeadSameChain | services/audit-log/src/store.ts:79-89 | Two valid chains with the same head are equal record for record |
| AuditChain.TruncationAccepted | services/audit-log/src/store.ts:79-89 | A chain cut off at the end is valid too, under another head |
| AuditText.LoadedSoFar | services/audit-log/src/store.ts:79-89 | The loader takes in the longest run of lines that parse into one chain and names the first line that does not |
| AuditText.PieceEnds | services/audit-log/src/store.ts:80 | Lines end at a line feed, the return before it not being part of the line |
| AuditText.LoaderAcceptsExactly | services/audit-log/src/store.ts:69-90 | A file is accepted exactly when its lines parse into one chain, which is then what is loaded |
| AuditText.SameHeadSameFile | services/audit-log/src/store.ts:69-90 | Two accepted files with the same head hold the same records: items, times and hashes, which is all the hash covers |
| AuditText.WrittenReadsBack | services/audit-log/src/store.ts:79-128 | A record that follows on is read back after the others exactly when the file had ended its last line; if not, the file is refused from then on |
| AuditLog.AuditStore.LoadLines | services/audit-log/src/store.ts:79-89 | The loop takes in records, and sets them in the map by key, up to the first that does not follow on |
| AuditLog.AuditStore.Load | services/audit-log/src/store.ts:69-90 | Loading adds exactly the records the loader specification accepts and reports its error |
| AuditLog.AuditStore.Initialise | services/audit-log/src/store.ts:57-67 | Over any data file a store becomes ready exactly when the whole file is accepted, and then holds exactly its records; it reads back later exactly if the file has ended its last line |
| AuditLog.OpenedExactly | services/audit-log/src/store.ts:57-90 | Opening keeps a store one chain and succeeds exactly when the file is accepted |
| AuditLog.AuditStore.AppendRecord | services/audit-log/src/store.ts:109-131 | Finds the record of the key or appends one of this item at this time, hashed with the record before it, to memory and file |
| AuditLog.AuditStore.AppendSerial | services/audit-log/src/store.ts:104-132 | A store in any state loads first if it has to and then makes one specified append, or answers with the load error; it stays one chain, and one that its file reads back as |
| AuditLog.AppendOnceKeeps | services/audit-log/src/store.ts:104-132 | One append, with loading, keeps a store one chain, and its file loading as exactly the records if it did |
| AuditLog.FirstAppendReadsBack | services/audit-log/src/store.ts:104-132 | What the first append after a start wrote is read back at the next exactly when the file had ended its last line; if not, the next start refuses it |
| AuditLog.AppendKeepsSound | services/audit-log/src/store.ts:104-132 | An append keeps the chain valid and the file loading as exactly the records |
| AuditLog.AppendAddsAtMostOne | services/audit-log/src/store.ts:109-131 | An append adds one record for a new key, none otherwise; a failure changes nothing; conflict exactly for another item under the key; repeating it changes nothing; a created record has the item and the time of the append |
| AuditLog.AppendRecords | services/audit-log/src/store.ts:109-131 | On any log a record is created exactly when the key is free and the disk takes it: of this item and time, linked to the last record, its hash that of the tag, that hash, the time and the item between NULs; otherwise nothing changes |
| AuditLog.IndexedIsLatest | services/audit-log/src/store.ts:86-87 | The map by key holds for each key the latest record with it |
| AuditQueue.OneAtATime | services/audit-log/src/store.ts:92-102 | From what each call captured alone: over every order of events at most one call is under way, all before it are over, work settles in call order, and no call is lost |
| AuditQueue.SkippedExactly | services/audit-log/src/store.ts:97-100 | A call is passed over exactly when the tails do not catch failures and an earlier call failed; with the handler none is |
| AuditSerial.Linearises | services/audit-log/src/store.ts:92-132 | So however calls, starts, lookups, finished writes and settling tails interleave, each served call gets the answer and leaves the store of a serial run in call order |
| AuditSerial.RunKeepsLog | services/audit-log/src/store.ts:92-132 | Over any run, from a store loaded or not, the log is one chain, the created records in order after those of the start and under new keys, each its own, and its file loads as exactly these records; each created record has the item of its call and a time at which that call looked |
| AuditSerial.RecordsAreOwn | services/audit-log/src/store.ts:92-132 | Over any overlapping run each created record is of its own call's item, at a time at which that call looked the key up |
| AuditQueue.EverythingSettles | services/audit-log/src/store.ts:92-102 | No run of steps without new calls is longer than the work left, and one that cannot go on has every call over and every promise settled, with the handler every call served |
| AuditSerial.WithoutTheChain | services/audit-log/src/store.ts:96-100 | Two overlapping appends that did not wait would break the chain |
| AuditClient.CertificateStorage.Forward | frontend/src/audit/index.ts:200-242 | Services already noted get no request; each other one's note says whether it answered well; the stored record is rewritten with the notes |
| AuditClient.NoteSurvivesExactly | frontend/src/audit/index.ts:205-239 | A delivered note survives one forwarding on its own exactly when its service is among those forwarded to |
| AuditNotes.RunKeepsMade | frontend/src/audit/index.ts:182-242 | Every run keeps records under their own identifiers and the notes of a forwarding to its own services |
| AuditNotes.NoteStaysExactly | frontend/src/audit/index.ts:182-269 | Over every run without a new storing and with the service in every list, a delivered note stays exactly when every forwarding of the certificate under way will write it; a new storing forgets it |
| AuditNotes.LateWriteForgets | frontend/src/audit/index.ts:200-242 | The failing run: of two forwardings to one listed service the second loses its request, writes last, and the note is gone |
| AuditClient.ForwardingIsSafe | frontend/src/audit/index.ts:182-269 | Over any run with losses, overlaps and restarts a service holds at most one record a key and loses none, and every delivered note is true |
| AuditClient.StoppedWritesNothing | frontend/src/audit/index.ts:200-242 | Stopping the app ends its forwardings: nothing stored changes until it stores or retries again |
| AuditClient.RetryAfterServed | frontend/src/audit/index.ts:206-235 | Once a request was served, every later one leaves the service's log as it is and succeeds |
| AuditClient.ServedSucceedsExactly | services/audit-log/src/server.ts:32-53 | A served request succeeds exactly for an acceptable certificate with no other under its key, once the disk takes it if it is new; then a record of it at that time is added |
| BoundedMap.BoundedPut | frontend/src/verify/index.ts:102-110 | The key goes to the young end and the oldest entries are dropped down to the limit, nothing else |
| BoundedMap.PutIsFound | frontend/src/verify/index.ts:102-110 | What was put is found |
| BoundedMap.ByRecencyExact | frontend/src/verify/index.ts:102-110 | The recency order lists each used key once, sorted by last use |
| BoundedMap.PutKeepsYoungest | frontend/src/verify/index.ts:102-110 | Dropping past the limit at every use leaves the youngest of all keys ever used |
| VerifyCache.Verifier.AuthorKeyFor | frontend/src/verify/index.ts:117-131 | The key cache returns what decoding returns and keeps only true entries |
| VerifyCache.ParsedExactly | frontend/src/verify/index.ts:133-154 | A receipt is parsed exactly when all its binary parts decode, into those parts |
| VerifyCache.VerdictExactly | frontend/src/verify/index.ts:198-224 | Each of the four flags is set exactly when nothing throws and its claim holds: the ID is that of the bytes, an ED25519 signature by the author's key verifies, the receipt decodes, names the server of its key and verifies |
| VerifyCache.Verifier.Compute | frontend/src/verify/index.ts:198-224 | Working a verdict out gives the uncached verdict, whose flags VerdictExactly states, and leaves the specified key cache |
| VerifyCache.Verifier.VerifyProvenance | frontend/src/verify/index.ts:185-236 | At any time the answer is that of a verifier without caches, verified exactly when the identifier names the bytes, the author's key signed them and the receipt holds; both caches are left as specified |
| VerifyCache.Verifier.SealStateFor | frontend/src/verify/index.ts:174-182 | Synced is claimed exactly when identifier, author's signature and receipt hold, queued exactly when the first two do and there is no receipt, unsigned exactly without provenance |
| VerifyCache.KeysAreMostRecent | frontend/src/verify/index.ts:185-236 | After any calls with any clock the identifiers held are the 4096 most recently verified, in recency order |
| VerifyCache.ExpiryIsFromComputing | frontend/src/verify/index.ts:186-235 | No hit extends an expiry: every entry expires five minutes after it was worked out |
| VerifyCache.HitsAreRecent | frontend/src/verify/index.ts:186-196 | A verdict answered from the cache was worked out for the same value less than five minutes ago |
| VerifyCache.RepeatIsHit | frontend/src/verify/index.ts:225-234 | What was just worked out answers for the same value exactly for the next five minutes |
| ChannelKeys.SignalVault.CreateChannelIdentity | frontend/src/signer/signal.ts:343-361 | The new channel takes the given index or one past the largest in use, and only its entry is set |
| ChannelKeys.SignalVault.AdoptChannelRotation | frontend/src/signer/signal.ts:363-369 | The old channel takes the replacement's index, or fails when the replacement is unknown |
| ChannelKeys.RunKeepsInv | frontend/src/signer/signal.ts:343-369 | Under any interleaving of declarations and rotations that are safe to begin a channel never signs below its own index |
| ChannelKeys.IndicesNeverReused | frontend/src/signer/signal.ts:343-369 | Then, and so if only the vault's own channels are rotated, every new index is above all ever given out and its identifier is new |
| ChannelKeys.RotationReusesExactly | frontend/src/signer/signal.ts:1498-1523 | After beginning a rotation no continuation gives an index out twice exactly when the rotated channel is not that of an index after the replacement's |
| ChannelKeys.UnownedRotationReuses | frontend/src/signer/signal.ts:1498-1523 | A failing run from an empty vault, which gives index 2 out twice |
| ChannelKeys.SigningIndexIs | frontend/src/signer/signal.ts:363-369 | Over any run a channel signs with what the last adoption of it gave, and with what it had if there was none |
| ChannelKeys.RotationEnds | frontend/src/signer/signal.ts:1498-1523 | A rotation ends once, adopted or abandoned, and abandoning it moves no key |
| ChannelKeys.MovesBackExactly | frontend/src/signer/signal.ts:1498-1523 | Adopting a rotation moves its channel back exactly when another was adopted since it began and gave a higher index than the replacement signs with; if none was, it moves forward |
| ChannelKeys.OverlapMovesBack | frontend/src/signer/signal.ts:1498-1523 | The failing run: two rotations of one channel adopted out of order leave it on the older replacement |
| PeerDirectory.MergeEndpoints | frontend/src/data/peer-directory.ts:115-122 | The two loops over the map give the specified list |
| PeerDirectory.MergedExactly | frontend/src/data/peer-directory.ts:115-122 | Merged endpoints are, for every key met, the latest with it, and nothing else |
| PeerDirectory.MergeKeepsPairsExactly | frontend/src/data/peer-directory.ts:115-122 | Every (scope, address) pair is kept exactly when no two different pairs have the same key text |
| PeerDirectory.PlainKeysApart | frontend/src/data/peer-directory.ts:119-120 | Scopes without a bar keep key texts apart |
| PeerDirectory.MergeDirectory | frontend/src/data/peer-directory.ts:93-113 | The loop over reports gives the specified snapshot, skipping unnamed ones |
| PeerHistory.MergeKeepsExactly | frontend/src/data/peer-directory.ts:93-122 | A merge into any map loses no server, adds exactly the named ones reported, and keeps all pairs of a server exactly when it was not reported or its key texts are apart |
| PeerHistory.NeverForgets | frontend/src/data/peer-directory.ts:93-122 | Over any history the named servers listed are exactly those ever reported, each with the latest endpoint of every key text, and all pairs ever reported for one are listed exactly when their key texts are apart |
| PeerHistory.PlainNeverForgets | frontend/src/data/peer-directory.ts:93-122 | So nothing is forgotten of a server whose reported scopes have no bar |
| PeerHistory.CombinedIs | frontend/src/data/peer-directory.ts:101-110 | A record after reports has the last one's fields, the last given name and trust, and all addresses |
| PeerHistory.MergeIdempotent | frontend/src/data/peer-directory.ts:93-113 | Merging the same report again at the same time changes nothing |
| PeerDialling.CandidateAddresses | frontend/src/data/peer-directory.ts:139-171 | The deduplicating loop and the sort give the specified list, of which ListedComesFrom says what is on it |
| PeerDialling.ListedExactly | frontend/src/data/peer-directory.ts:158-164 | Each known address is listed once, as it was first met |
| PeerDialling.ListedComesFrom | frontend/src/data/peer-directory.ts:139-171 | Exactly the addresses of the peers' endpoints and of the seeds are listed; one from the cache is the first endpoint with its address, under its peer's name, and one from the seeds has the least scope rank among those with it and is not in the cache |
| PeerDialling.ScopesRanked | frontend/src/data/peer-directory.ts:56-65 | Local network, provider, country, world with all unknown scopes, mesh, Reticulum, in that order |
| PeerDialling.Connect | frontend/src/data/peer-directory.ts:243-251 | Returns the first candidate that answers, nothing when none does |
| PeerDialling.DialsEverything | frontend/src/data/peer-directory.ts:139-251 | Dialling the list finds nothing exactly when no endpoint of a peer and no seed answers |
| PeerDialling.DialsNarrowest | frontend/src/data/peer-directory.ts:165-251 | With scopes that are not named like inherited object properties, the candidate found has the least listed scope rank among those that answer, from the cache at a tie |
| LinearFit.NormalEquations | ops/sweep-analyse.py:30-37 | The residuals of the fitted line cancel out, also weighted by the distance from the mean |
| LinearFit.FitIsBest | ops/sweep-analyse.py:25-41 | No line has a smaller squared error than the fitted one and no other has the same |
| LinearFit.FitsExactly | ops/sweep-analyse.py:27-35 | There is a fit exactly for points that do not all have the same x |
| LinearFit.SpreadIsZeroExactly | ops/sweep-analyse.py:32-38 | The sum of squared distances from the mean is zero exactly for equal values |
| LinearFit.RSquared | ops/sweep-analyse.py:38-41 | R squared exists exactly when the y values differ, lies between 0 and 1, and is 1 exactly for points on one line |
| LinearFit.RSquaredIs | ops/sweep-analyse.py:38-41 | R squared times the squared distances of the y values from their mean is those less the squared distances from the line, both sums written out |
| LinearFit.ErrorIs | ops/sweep-analyse.py:39 | The squared error of a line is the sum of the squared vertical distances of the points from it |
| LinearFit.SpreadIs | ops/sweep-analyse.py:38 | The spread of values is the sum of their squared distances from the mean |

## Left out

- The ingress pipeline, federation, bridge policy, path selection and the Merkle log: their source is not part of this model.
- Cryptography, key derivation, certificates, the domain table, NFC, UTF-8 and JSON: functions that the theorems take as parameters, with the properties they need.
- Storage, files, network, radio and native modules: one step each; what a failed or partial write would leave is not modelled.
- Overlapping read-modify-writes of one storage key in the mesh store, the outbox and the channel map: the code does not serialise them; each is one step here.
- Mesh.MeshStore.PutRow: does not model two puts that overlap, because the read and the write of a plane are one step here.
- Bloom.MeshBloom.Add: is proved for any seeded hash; Bloom.ComputeHash says which one the program uses.
- Bloom filters of another length than 256 bytes, which nothing constructs.
- Mesh.MeshRouter.ReceiveFrame: gives errors their names and not their texts; an exception of the base64 decoder is one reason. Numbers given as texts, booleans or lists, numbers too large for a double, and identifiers or envelopes that are no text are not modelled; the hops of a relay are as JSON writes them.
- JbPack.ImportJbPack: does not say why an item was rejected, as the program does not.
- Flood.LanNode.OnFrame: does not model frames that fail to decode or are not envelopes, which change nothing, nor the local projection of a newly stored envelope.
- FloodCoverage.FloodCovers: does not model peer graphs that change during a run.
- The sharing of one drain among callers that ask while it runs; deliveries that overlap are in `OutboxRuns`.
- The outbox's recovery from unreadable storage, which starts over with an empty list, and its count for one server.
- Outbox.Store.Deliver: takes the reply as an input; a failure to store the certificate counts as a failed submission, as in the program.
- The issue reports of the audit client, which are forwarded in the same way as certificates but each at most once at a time.
- AuditLog.AuditStore.Initialise: does not model two first calls that share one load, nor a file that something else changes between attempts.
- AuditText.SameHeadSameFile: is about the typed records; JSON fields beside them, or a time written as a text, are not hashed by the program and not in the model.
- AuditQueue.OneAtATime: makes the loading inside a call and the lookup after it one step; the microtasks between them are not modelled.
- The audit log's find and summary queries.
- AuditClient.ForwardingIsSafe: lets a service's append be one step; AuditSerial.Linearises is what allows that.
- PeerDirectory.MergeDirectory: takes an absent name or trust as absent, not as a value that is set to nothing.
- Fetching a node's directory, staleness and refresh times, and seeds by ASN: easy members.
- PeerDialling.DialsNarrowest: does not cover scopes named like inherited properties of an object literal (`constructor`, `toString` and the like), which the program's table lookup finds and which leave the order open; PeerDialling.CandidateAddresses gives them the rank of an unknown scope.
- LinearFit.FitIsBest: is over the reals; floating-point rounding and lists of unequal length are not modelled.
- Screens, navigation, settings, sessions, measurement scripts and the rest of the node: plumbing.
