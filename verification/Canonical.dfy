/**
 The canonical envelope encoding: fields in ascending number, zero values omitted, strings
 in NFC, an all-empty anti-abuse block omitted.

 An envelope is first laid out as twelve optional fields (`Slots`); its canonical bytes are
 those fields one after another (`Emit`). `nfc` stands for NFC normalisation followed by
 UTF-8 encoding.
 */
module Canonical {
  import opened Wrappers
  import opened Wire

  /** Numbers are integers here; `InRange` says which of them the Rust types can hold. */
  datatype AntiAbuse = AntiAbuse(credential: seq<byte>, nullifier: seq<byte>, epoch: int, pow: seq<byte>)

  datatype Envelope = Envelope(
    version: int,
    plane: int,
    domain: string,
    authorKey: seq<byte>,
    keyAlg: int,
    parent: string,
    scope: string,
    createdAtMs: int,
    nonce: seq<byte>,
    priority: int,
    body: seq<byte>,
    antiAbuse: Option<AntiAbuse>,
    signature: seq<byte>)

  predicate IsU32(v: int) { 0 <= v < TWO_TO_THE_32 }

  /** The values the fields of the Rust structs range over: `u32`, and `i64` for the time. */
  predicate InRange(e: Envelope)
  {
    && IsU32(e.version) && IsU32(e.plane) && IsU32(e.keyAlg) && IsU32(e.priority)
    && -TWO_TO_THE_63 <= e.createdAtMs < TWO_TO_THE_63
    && (e.antiAbuse.Some? ==> IsU32(e.antiAbuse.value.epoch))
  }

  // ---------------------------------------------------------------- layout

  type Slot = Option<Field>

  function VarintSlot(number: nat, value: int): Slot
  {
    if value != 0 then Some(VarintField(number, Unsigned(value))) else None
  }

  function BytesSlot(number: nat, value: seq<byte>): Slot
  {
    if value != [] then Some(LenField(number, value)) else None
  }

  function TextSlot(nfc: string -> seq<byte>, number: nat, value: string): Slot
  {
    if value != "" then Some(LenField(number, nfc(value))) else None
  }

  predicate IsEmpty(aa: AntiAbuse)
  {
    aa.credential == [] && aa.nullifier == [] && aa.epoch == 0 && aa.pow == []
  }

  function AntiAbuseSlots(aa: AntiAbuse): seq<Slot>
  {
    [BytesSlot(1, aa.credential), BytesSlot(2, aa.nullifier), VarintSlot(3, aa.epoch), BytesSlot(4, aa.pow)]
  }

  function AntiAbuseSlot(aa: Option<AntiAbuse>): Slot
  {
    if aa.None? || IsEmpty(aa.value) then None else Some(LenField(12, Emit(AntiAbuseSlots(aa.value))))
  }

  function Slots(nfc: string -> seq<byte>, e: Envelope): seq<Slot>
  {
    [VarintSlot(1, e.version), VarintSlot(2, e.plane), TextSlot(nfc, 3, e.domain), BytesSlot(4, e.authorKey),
     VarintSlot(5, e.keyAlg), TextSlot(nfc, 6, e.parent), TextSlot(nfc, 7, e.scope), VarintSlot(8, e.createdAtMs),
     BytesSlot(9, e.nonce), VarintSlot(10, e.priority), BytesSlot(11, e.body), AntiAbuseSlot(e.antiAbuse)]
  }

  function Compact(slots: seq<Slot>): seq<Field>
  {
    if slots == [] then []
    else if slots[0].Some? then [slots[0].value] + Compact(slots[1..])
    else Compact(slots[1..])
  }

  function Emit(slots: seq<Slot>): seq<byte>
  {
    EncodeFields(Compact(slots))
  }

  function CanonicalBytes(nfc: string -> seq<byte>, e: Envelope): seq<byte>
  {
    Emit(Slots(nfc, e))
  }

  function SignedBytes(nfc: string -> seq<byte>, e: Envelope): seq<byte>
  {
    Emit(Slots(nfc, e) + [BytesSlot(13, e.signature)])
  }

  // ---------------------------------------------------------------- slots and fields

  /** Slot `i` is empty or carries field number `base + i`: the ascending order of the format. */
  predicate Numbered(slots: seq<Slot>, base: nat)
  {
    forall i :: 0 <= i < |slots| && slots[i].Some? ==> slots[i].value.num == base + i
  }

  lemma {:induction false} CompactAppend(a: seq<Slot>, b: seq<Slot>)
    ensures Compact(a + b) == Compact(a) + Compact(b)
  {
    if a == [] {
      assert a + b == b;
    } else {
      CompactAppend(a[1..], b);
      assert (a + b)[0] == a[0] && (a + b)[1..] == a[1..] + b;
    }
  }

  lemma {:induction false} CompactNumbers(slots: seq<Slot>, base: nat)
    requires Numbered(slots, base)
    ensures forall i :: 0 <= i < |Compact(slots)| ==> base <= Compact(slots)[i].num < base + |slots|
    ensures forall i, j :: 0 <= i < j < |Compact(slots)| ==> Compact(slots)[i].num < Compact(slots)[j].num
  {
    if slots != [] {
      assert forall i :: 0 <= i < |slots[1..]| ==> slots[1..][i] == slots[i + 1];
      CompactNumbers(slots[1..], base + 1);
    }
  }

  /** Because numbers ascend, leaving empty slots out loses nothing. */
  lemma {:induction false} CompactInjective(a: seq<Slot>, b: seq<Slot>, base: nat)
    requires |a| == |b| && Numbered(a, base) && Numbered(b, base)
    requires Compact(a) == Compact(b)
    ensures a == b
  {
    if a != [] {
      assert forall i :: 0 <= i < |a[1..]| ==> a[1..][i] == a[i + 1] && b[1..][i] == b[i + 1];
      CompactHead(a, base);
      CompactHead(b, base);
      CompactInjective(a[1..], b[1..], base + 1);
      assert a == [a[0]] + a[1..] && b == [b[0]] + b[1..];
    }
  }

  lemma CompactHead(slots: seq<Slot>, base: nat)
    requires slots != [] && Numbered(slots, base)
    ensures slots[0].Some? <==> Compact(slots) != [] && Compact(slots)[0].num == base
    ensures slots[0].Some? ==> slots[0].value == Compact(slots)[0]
    ensures Compact(slots[1..]) == if slots[0].Some? then Compact(slots)[1..] else Compact(slots)
  {
    assert forall i :: 0 <= i < |slots[1..]| ==> slots[1..][i] == slots[i + 1];
    CompactNumbers(slots[1..], base + 1);
  }

  lemma EmitInjective(a: seq<Slot>, b: seq<Slot>, base: nat)
    requires |a| == |b| && Numbered(a, base) && Numbered(b, base)
    requires Emit(a) == Emit(b)
    ensures a == b
  {
    EncodeFieldsInjective(Compact(a), Compact(b));
    CompactInjective(a, b, base);
  }

  lemma EmitOne(slots: seq<Slot>, s: Slot)
    ensures Emit(slots + [s]) == Emit(slots) + if s.Some? then EncodeField(s.value) else []
  {
    CompactAppend(slots, [s]);
    assert [s][1..] == [];
    EncodeFieldsAppend(Compact(slots), Compact([s]));
    if s.Some? {
      assert Compact([s]) == [s.value];
      assert [s.value][1..] == [];
    }
  }

  // ---------------------------------------------------------------- injectivity

  predicate SameText(nfc: string -> seq<byte>, s: string, t: string)
  {
    (s == "" <==> t == "") && nfc(s) == nfc(t)
  }

  /** Equal in every one of fields 1 to 12, up to NFC; a missing anti-abuse block reads as an all-empty one. */
  predicate SameContent(nfc: string -> seq<byte>, d: Envelope, e: Envelope)
  {
    && d.version == e.version && d.plane == e.plane && d.keyAlg == e.keyAlg && d.priority == e.priority
    && d.createdAtMs == e.createdAtMs
    && SameText(nfc, d.domain, e.domain) && SameText(nfc, d.parent, e.parent) && SameText(nfc, d.scope, e.scope)
    && d.authorKey == e.authorKey && d.nonce == e.nonce && d.body == e.body
    && (var a := if d.antiAbuse.Some? then d.antiAbuse.value else AntiAbuse([], [], 0, []);
        var b := if e.antiAbuse.Some? then e.antiAbuse.value else AntiAbuse([], [], 0, []);
        a.credential == b.credential && a.nullifier == b.nullifier && a.epoch == b.epoch && a.pow == b.pow)
  }

  /** Written alike: both are omitted or both give the same varint. */
  predicate SameNumber(v: int, w: int)
  {
    (v == 0 <==> w == 0) && Unsigned(v) == Unsigned(w)
  }

  /** Equal as far as the bytes can tell: as `SameContent`, numbers compared as they are written. */
  predicate AlikeContent(nfc: string -> seq<byte>, d: Envelope, e: Envelope)
  {
    && SameNumber(d.version, e.version) && SameNumber(d.plane, e.plane) && SameNumber(d.keyAlg, e.keyAlg)
    && SameNumber(d.priority, e.priority) && SameNumber(d.createdAtMs, e.createdAtMs)
    && SameText(nfc, d.domain, e.domain) && SameText(nfc, d.parent, e.parent) && SameText(nfc, d.scope, e.scope)
    && d.authorKey == e.authorKey && d.nonce == e.nonce && d.body == e.body
    && (var a := if d.antiAbuse.Some? then d.antiAbuse.value else AntiAbuse([], [], 0, []);
        var b := if e.antiAbuse.Some? then e.antiAbuse.value else AntiAbuse([], [], 0, []);
        && a.credential == b.credential && a.nullifier == b.nullifier
        && SameNumber(a.epoch, b.epoch) && a.pow == b.pow)
  }

  lemma SameVarintSlot(number: nat, v: int, w: int)
    ensures VarintSlot(number, v) == VarintSlot(number, w) <==> SameNumber(v, w)
  {
    if v != 0 && w != 0 && VarintSlot(number, v) == VarintSlot(number, w) {
      assert VarintSlot(number, v).value.value == VarintSlot(number, w).value.value;
    }
  }

  lemma BlocksAlike(a: AntiAbuse, b: AntiAbuse)
    ensures Emit(AntiAbuseSlots(a)) == Emit(AntiAbuseSlots(b))
       <==> (&& a.credential == b.credential && a.nullifier == b.nullifier
             && SameNumber(a.epoch, b.epoch) && a.pow == b.pow)
  {
    var s, t := AntiAbuseSlots(a), AntiAbuseSlots(b);
    SameVarintSlot(3, a.epoch, b.epoch);
    if Emit(s) == Emit(t) {
      EmitInjective(s, t, 1);
      assert s[0] == t[0] && s[1] == t[1] && s[2] == t[2] && s[3] == t[3];
    }
  }

  lemma AntiAbuseInjective(a: AntiAbuse, b: AntiAbuse)
    requires IsU32(a.epoch) && IsU32(b.epoch)
    requires Emit(AntiAbuseSlots(a)) == Emit(AntiAbuseSlots(b))
    ensures a == b
  {
    BlocksAlike(a, b);
  }

  lemma SlotsNumbered(nfc: string -> seq<byte>, e: Envelope)
    ensures Numbered(Slots(nfc, e), 1) && |Slots(nfc, e)| == 12
    ensures Numbered(Slots(nfc, e) + [BytesSlot(13, e.signature)], 1)
  {}

  lemma SameAntiAbuseSlot(a: Option<AntiAbuse>, b: Option<AntiAbuse>)
    ensures AntiAbuseSlot(a) == AntiAbuseSlot(b) <==>
      (var x := if a.Some? then a.value else AntiAbuse([], [], 0, []);
       var y := if b.Some? then b.value else AntiAbuse([], [], 0, []);
       && x.credential == y.credential && x.nullifier == y.nullifier
       && SameNumber(x.epoch, y.epoch) && x.pow == y.pow)
  {
    if a.Some? && b.Some? {
      BlocksAlike(a.value, b.value);
    }
  }

  lemma SameSlotsIffAlike(nfc: string -> seq<byte>, d: Envelope, e: Envelope)
    ensures Slots(nfc, d) == Slots(nfc, e) <==> AlikeContent(nfc, d, e)
  {
    SameVarintSlot(1, d.version, e.version);
    SameVarintSlot(2, d.plane, e.plane);
    SameVarintSlot(5, d.keyAlg, e.keyAlg);
    SameVarintSlot(8, d.createdAtMs, e.createdAtMs);
    SameVarintSlot(10, d.priority, e.priority);
    SameAntiAbuseSlot(d.antiAbuse, e.antiAbuse);
    var s, t := Slots(nfc, d), Slots(nfc, e);
    if s == t {
      assert s[0] == t[0] && s[1] == t[1] && s[4] == t[4] && s[7] == t[7] && s[9] == t[9];
      assert s[2] == t[2] && s[5] == t[5] && s[6] == t[6];
      assert s[3] == t[3] && s[8] == t[8] && s[10] == t[10];
      assert s[11] == t[11];
    }
  }

  /**
   Over all integers, which is what the Python writer takes: equal canonical bytes mean contents that
   agree but for numbers that are both omitted or have the same unsigned form. So two times collide
   exactly when they differ and have one unsigned form, neither being zero.
   */
  lemma CanonicalExactly(nfc: string -> seq<byte>, d: Envelope, e: Envelope)
    ensures CanonicalBytes(nfc, d) == CanonicalBytes(nfc, e) <==> AlikeContent(nfc, d, e)
  {
    SameSlotsIffAlike(nfc, d, e);
    SlotsNumbered(nfc, d);
    SlotsNumbered(nfc, e);
    if CanonicalBytes(nfc, d) == CanonicalBytes(nfc, e) {
      EmitInjective(Slots(nfc, d), Slots(nfc, e), 1);
    }
  }

  /** The wire form tells the signature too. */
  lemma SignedExactly(nfc: string -> seq<byte>, d: Envelope, e: Envelope)
    ensures SignedBytes(nfc, d) == SignedBytes(nfc, e) <==> AlikeContent(nfc, d, e) && d.signature == e.signature
  {
    SameSlotsIffAlike(nfc, d, e);
    SlotsNumbered(nfc, d);
    SlotsNumbered(nfc, e);
    if SignedBytes(nfc, d) == SignedBytes(nfc, e) {
      var a, b := Slots(nfc, d), Slots(nfc, e);
      EmitInjective(a + [BytesSlot(13, d.signature)], b + [BytesSlot(13, e.signature)], 1);
      EqualLengthPrefix(a, b, [BytesSlot(13, d.signature)], [BytesSlot(13, e.signature)]);
    }
  }

  lemma InRangeAlike(nfc: string -> seq<byte>, d: Envelope, e: Envelope)
    requires InRange(d) && InRange(e)
    ensures AlikeContent(nfc, d, e) <==> SameContent(nfc, d, e)
  {}

  /** In the range of the Rust types equal canonical bytes mean the same content. */
  lemma CanonicalInjective(nfc: string -> seq<byte>, d: Envelope, e: Envelope)
    requires InRange(d) && InRange(e)
    ensures CanonicalBytes(nfc, d) == CanonicalBytes(nfc, e) <==> SameContent(nfc, d, e)
  {
    CanonicalExactly(nfc, d, e);
    InRangeAlike(nfc, d, e);
  }

  lemma SameContentSameSlots(nfc: string -> seq<byte>, d: Envelope, e: Envelope)
    requires SameContent(nfc, d, e)
    ensures Slots(nfc, d) == Slots(nfc, e)
  {}

  /** The wire form determines the content and the signature too. */
  lemma SignedInjective(nfc: string -> seq<byte>, d: Envelope, e: Envelope)
    requires InRange(d) && InRange(e)
    ensures SignedBytes(nfc, d) == SignedBytes(nfc, e) <==> SameContent(nfc, d, e) && d.signature == e.signature
  {
    SignedExactly(nfc, d, e);
    InRangeAlike(nfc, d, e);
  }

  /**
   Two creation times give an envelope the same bytes exactly when they are written alike: never two
   of 64 bits, but -1 and 2^64 - 1 do.
   */
  lemma WideTimesCollide(nfc: string -> seq<byte>, e: Envelope, t: int, u: int)
    ensures CanonicalBytes(nfc, e.(createdAtMs := t)) == CanonicalBytes(nfc, e.(createdAtMs := u)) <==> SameNumber(t, u)
    ensures -TWO_TO_THE_63 <= t < TWO_TO_THE_63 && -TWO_TO_THE_63 <= u < TWO_TO_THE_63 ==>
      (SameNumber(t, u) <==> t == u)
    ensures SameNumber(-1, TWO_TO_THE_64 - 1)
  {
    CanonicalExactly(nfc, e.(createdAtMs := t), e.(createdAtMs := u));
    assert AlikeContent(nfc, e.(createdAtMs := t), e.(createdAtMs := u)) <==> SameNumber(t, u);
  }

  // ---------------------------------------------------------------- layout, byte by byte

  function VarintPart(tag: byte, value: int): seq<byte>
  {
    if value == 0 then [] else [tag] + Varint(Unsigned(value))
  }

  function BytesPart(tag: byte, value: seq<byte>): seq<byte>
  {
    if value == [] then [] else [tag] + Varint(|value|) + value
  }

  function TextPart(nfc: string -> seq<byte>, tag: byte, value: string): seq<byte>
  {
    if value == "" then [] else [tag] + Varint(|nfc(value)|) + nfc(value)
  }

  lemma OneByteTag(f: Field)
    requires f.num < 16
    ensures EncodeField(f) == [f.num * 8 + if f.VarintField? then 0 else 2] + Content(f)
  {}

  lemma EmitVarint(slots: seq<Slot>, i: nat, number: nat, value: int)
    requires i < |slots| && slots[i] == VarintSlot(number, value) && number < 16
    ensures Emit(slots[..i + 1]) == Emit(slots[..i]) + VarintPart(number * 8, value)
  {
    EmitStep(slots, i);
    if value != 0 {
      OneByteTag(slots[i].value);
    }
  }

  lemma EmitBytes(slots: seq<Slot>, i: nat, number: nat, value: seq<byte>)
    requires i < |slots| && slots[i] == BytesSlot(number, value) && number < 16
    ensures Emit(slots[..i + 1]) == Emit(slots[..i]) + BytesPart(number * 8 + 2, value)
  {
    EmitStep(slots, i);
    if value != [] {
      OneByteTag(slots[i].value);
      Assoc([(number * 8 + 2) as byte], Varint(|value|), value);
    }
  }

  lemma EmitText(nfc: string -> seq<byte>, slots: seq<Slot>, i: nat, number: nat, value: string)
    requires i < |slots| && slots[i] == TextSlot(nfc, number, value) && number < 16
    ensures Emit(slots[..i + 1]) == Emit(slots[..i]) + TextPart(nfc, number * 8 + 2, value)
  {
    EmitStep(slots, i);
    if value != "" {
      OneByteTag(slots[i].value);
      Assoc([(number * 8 + 2) as byte], Varint(|nfc(value)|), nfc(value));
    }
  }

  /** Nothing is written before the first slot. */
  lemma EmitStart(slots: seq<Slot>, part: seq<byte>)
    ensures Emit(slots[..0]) + part == part
  {
    assert slots[..0] == [];
  }

  lemma BlockSteps(aa: AntiAbuse, s: seq<Slot>)
    requires s == AntiAbuseSlots(aa)
    ensures Emit(s[..4]) == Emit(s[..0]) + BytesPart(0x0a, aa.credential) + BytesPart(0x12, aa.nullifier)
                            + VarintPart(0x18, aa.epoch) + BytesPart(0x22, aa.pow)
  {
    EmitBytes(s, 0, 1, aa.credential);
    EmitBytes(s, 1, 2, aa.nullifier);
    EmitVarint(s, 2, 3, aa.epoch);
    EmitBytes(s, 3, 4, aa.pow);
  }

  lemma BlockLayout(aa: AntiAbuse)
    ensures Emit(AntiAbuseSlots(aa)) ==
      BytesPart(0x0a, aa.credential) + BytesPart(0x12, aa.nullifier) + VarintPart(0x18, aa.epoch)
      + BytesPart(0x22, aa.pow)
  {
    var s := AntiAbuseSlots(aa);
    BlockSteps(aa, s);
    EmitStart(s, BytesPart(0x0a, aa.credential));
    assert s[..4] == s;
  }

  /** The nested message as the fields of a block read off the option; nothing for no block. */
  function BlockBytes(antiAbuse: Option<AntiAbuse>): seq<byte>
  {
    var aa := if antiAbuse.Some? then antiAbuse.value else AntiAbuse([], [], 0, []);
    BytesPart(0x0a, aa.credential) + BytesPart(0x12, aa.nullifier) + VarintPart(0x18, aa.epoch)
    + BytesPart(0x22, aa.pow)
  }

  lemma BlockSlotIs(antiAbuse: Option<AntiAbuse>)
    ensures AntiAbuseSlot(antiAbuse) == BytesSlot(12, BlockBytes(antiAbuse))
  {
    if antiAbuse.Some? {
      BlockLayout(antiAbuse.value);
    }
  }

  lemma EmitBlock(slots: seq<Slot>, i: nat, antiAbuse: Option<AntiAbuse>, block: seq<byte>)
    requires i < |slots| && slots[i] == AntiAbuseSlot(antiAbuse) && AntiAbuseSlot(antiAbuse) == BytesSlot(12, block)
    ensures Emit(slots[..i + 1]) == Emit(slots[..i]) + BytesPart(0x62, block)
  {
    EmitBytes(slots, i, 12, block);
  }

  lemma HeadLayout(nfc: string -> seq<byte>, e: Envelope, s: seq<Slot>)
    requires HeadSlots(nfc, e, s)
    ensures Emit(s[..6]) == Emit(s[..0])
      + VarintPart(0x08, e.version) + VarintPart(0x10, e.plane) + TextPart(nfc, 0x1a, e.domain)
      + BytesPart(0x22, e.authorKey) + VarintPart(0x28, e.keyAlg) + TextPart(nfc, 0x32, e.parent)
  {
    EmitVarint(s, 0, 1, e.version);
    EmitVarint(s, 1, 2, e.plane);
    EmitText(nfc, s, 2, 3, e.domain);
    EmitBytes(s, 3, 4, e.authorKey);
    EmitVarint(s, 4, 5, e.keyAlg);
    EmitText(nfc, s, 5, 6, e.parent);
  }

  lemma TailLayout(nfc: string -> seq<byte>, e: Envelope, s: seq<Slot>)
    requires TailSlots(nfc, e, s)
    ensures Emit(s[..11]) == Emit(s[..6])
      + TextPart(nfc, 0x3a, e.scope) + VarintPart(0x40, e.createdAtMs) + BytesPart(0x4a, e.nonce)
      + VarintPart(0x50, e.priority) + BytesPart(0x5a, e.body)
  {
    EmitText(nfc, s, 6, 7, e.scope);
    EmitVarint(s, 7, 8, e.createdAtMs);
    EmitBytes(s, 8, 9, e.nonce);
    EmitVarint(s, 9, 10, e.priority);
    EmitBytes(s, 10, 11, e.body);
  }

  lemma LastLayout(nfc: string -> seq<byte>, e: Envelope, s: seq<Slot>, block: seq<byte>)
    requires s == Slots(nfc, e) && AntiAbuseSlot(e.antiAbuse) == BytesSlot(12, block)
    ensures CanonicalBytes(nfc, e) == Emit(s[..11]) + BytesPart(0x62, block)
  {
    EmitBlock(s, 11, e.antiAbuse, block);
    assert s[..12] == s;
  }

  lemma SignatureLayout(nfc: string -> seq<byte>, e: Envelope, s: seq<Slot>)
    requires s == Slots(nfc, e)
    ensures SignedBytes(nfc, e) == CanonicalBytes(nfc, e) + BytesPart(0x6a, e.signature)
  {
    var t := s + [BytesSlot(13, e.signature)];
    EmitBytes(t, 12, 13, e.signature);
    assert t[..12] == s && t[..13] == t;
  }

  /** The canonical bytes spelled out: each field under its tag byte, left out when it is zero or empty. */
  lemma CanonicalLayout(nfc: string -> seq<byte>, e: Envelope)
    ensures CanonicalBytes(nfc, e) ==
      VarintPart(0x08, e.version) + VarintPart(0x10, e.plane) + TextPart(nfc, 0x1a, e.domain)
      + BytesPart(0x22, e.authorKey) + VarintPart(0x28, e.keyAlg) + TextPart(nfc, 0x32, e.parent)
      + TextPart(nfc, 0x3a, e.scope) + VarintPart(0x40, e.createdAtMs) + BytesPart(0x4a, e.nonce)
      + VarintPart(0x50, e.priority) + BytesPart(0x5a, e.body) + BytesPart(0x62, BlockBytes(e.antiAbuse))
    ensures SignedBytes(nfc, e) == CanonicalBytes(nfc, e) + BytesPart(0x6a, e.signature)
  {
    var s := Slots(nfc, e);
    HeadLayout(nfc, e, s);
    TailLayout(nfc, e, s);
    BlockSlotIs(e.antiAbuse);
    LastLayout(nfc, e, s, BlockBytes(e.antiAbuse));
    SignatureLayout(nfc, e, s);
    EmitStart(s, VarintPart(0x08, e.version));
  }

  lemma BlockAtTheEnd(nfc: string -> seq<byte>, e: Envelope, block: seq<byte>)
    requires AntiAbuseSlot(e.antiAbuse) == BytesSlot(12, block)
    ensures CanonicalBytes(nfc, e) == CanonicalBytes(nfc, e.(antiAbuse := None)) + BytesPart(0x62, block)
  {
    var bare := e.(antiAbuse := None);
    LastLayout(nfc, e, Slots(nfc, e), block);
    LastLayout(nfc, bare, Slots(nfc, bare), []);
    SameFront(nfc, e, bare);
    NothingAfter(Emit(Slots(nfc, bare)[..11]));
  }

  lemma SameFront(nfc: string -> seq<byte>, d: Envelope, e: Envelope)
    requires e == d.(antiAbuse := None)
    ensures Slots(nfc, d)[..11] == Slots(nfc, e)[..11]
  {}

  lemma NothingAfter(bytes: seq<byte>)
    ensures bytes + BytesPart(0x62, []) == bytes
  {}

  /** A block that holds nothing but a proof of work is written. */
  lemma PowOnlyBlockWritten(nfc: string -> seq<byte>, e: Envelope)
    requires e.antiAbuse == Some(AntiAbuse([], [], 0, [1]))
    ensures CanonicalBytes(nfc, e) ==
      CanonicalBytes(nfc, e.(antiAbuse := None)) + [0x62, 0x03, 0x22, 0x01, 0x01]
  {
    var inner: seq<byte> := [0x22, 0x01, 0x01];
    BlockSlotIs(e.antiAbuse);
    assert BlockBytes(e.antiAbuse) == inner by {
      assert BytesPart(0x22, [1]) == inner;
    }
    BlockAtTheEnd(nfc, e, inner);
    assert BytesPart(0x62, inner) == [0x62, 0x03, 0x22, 0x01, 0x01];
  }

  // ---------------------------------------------------------------- Rust encoder

  /** What fits the address space: no buffer is longer than a Rust slice can be. */
  predicate FitsMemory(nfc: string -> seq<byte>, e: Envelope)
  {
    && |nfc(e.domain)| < TWO_TO_THE_63 && |nfc(e.parent)| < TWO_TO_THE_63 && |nfc(e.scope)| < TWO_TO_THE_63
    && |e.authorKey| < TWO_TO_THE_63 && |e.nonce| < TWO_TO_THE_63 && |e.body| < TWO_TO_THE_63
    && |e.signature| < TWO_TO_THE_63
    && (e.antiAbuse.Some? ==> BlockFitsMemory(e.antiAbuse.value))
  }

  predicate BlockFitsMemory(aa: AntiAbuse)
  {
    && |aa.credential| < TWO_TO_THE_63 && |aa.nullifier| < TWO_TO_THE_63 && |aa.pow| < TWO_TO_THE_63
    && |Emit(AntiAbuseSlots(aa))| < TWO_TO_THE_63
  }

  lemma EmitStep(slots: seq<Slot>, i: nat)
    requires i < |slots|
    ensures Emit(slots[..i + 1]) == Emit(slots[..i]) + if slots[i].Some? then EncodeField(slots[i].value) else []
  {
    assert slots[..i + 1] == slots[..i] + [slots[i]];
    EmitOne(slots[..i], slots[i]);
  }

  /** One `if !value.is_empty()` of the encoders. */
  method WriteBytesSlot(out: ByteVec, number: u32, value: seq<byte>, ghost slots: seq<Slot>, ghost i: nat)
    requires number < 16 && |value| < TWO_TO_THE_63
    requires i < |slots| && slots[i] == BytesSlot(number as nat, value)
    requires out.data == Emit(slots[..i])
    modifies out
    ensures out.data == Emit(slots[..i + 1])
  {
    EmitStep(slots, i);
    if value != [] {
      WriteLenDelimited(out, number, value);
    }
  }

  /** One `if value != 0` of the encoders. */
  method WriteVarintSlot(out: ByteVec, number: u32, value: u64, ghost slots: seq<Slot>, ghost i: nat)
    requires number < 16
    requires i < |slots| && (slots[i] == if value != 0 then Some(VarintField(number as nat, value as nat)) else None)
    requires out.data == Emit(slots[..i])
    modifies out
    ensures out.data == Emit(slots[..i + 1])
  {
    EmitStep(slots, i);
    if value != 0 {
      WriteVarintField(out, number, value);
    }
  }

  method WriteTextSlot(nfc: string -> seq<byte>, out: ByteVec, number: u32, value: string,
                       ghost slots: seq<Slot>, ghost i: nat)
    requires number < 16 && |nfc(value)| < TWO_TO_THE_63
    requires i < |slots| && slots[i] == TextSlot(nfc, number as nat, value)
    requires out.data == Emit(slots[..i])
    modifies out
    ensures out.data == Emit(slots[..i + 1])
  {
    EmitStep(slots, i);
    if value != "" {
      WriteLenDelimited(out, number, nfc(value));
    }
  }

  method EncodeAntiAbuse(aa: AntiAbuse) returns (out: ByteVec)
    requires IsU32(aa.epoch) && BlockFitsMemory(aa)
    ensures fresh(out) && out.data == Emit(AntiAbuseSlots(aa))
  {
    out := new ByteVec();
    ghost var s := AntiAbuseSlots(aa);
    WriteBytesSlot(out, 1, aa.credential, s, 0);
    WriteBytesSlot(out, 2, aa.nullifier, s, 1);
    WriteVarintSlot(out, 3, aa.epoch as u64, s, 2);
    WriteBytesSlot(out, 4, aa.pow, s, 3);
    assert s[..4] == s;
  }

  ghost predicate HeadSlots(nfc: string -> seq<byte>, e: Envelope, s: seq<Slot>)
  {
    && |s| == 12
    && s[0] == VarintSlot(1, e.version) && s[1] == VarintSlot(2, e.plane) && s[2] == TextSlot(nfc, 3, e.domain)
    && s[3] == BytesSlot(4, e.authorKey) && s[4] == VarintSlot(5, e.keyAlg) && s[5] == TextSlot(nfc, 6, e.parent)
  }

  ghost predicate TailSlots(nfc: string -> seq<byte>, e: Envelope, s: seq<Slot>)
  {
    && |s| == 12
    && s[6] == TextSlot(nfc, 7, e.scope) && s[7] == VarintSlot(8, e.createdAtMs) && s[8] == BytesSlot(9, e.nonce)
    && s[9] == VarintSlot(10, e.priority) && s[10] == BytesSlot(11, e.body)
  }

  /** Fields 1 to 6. */
  method EncodeHead(nfc: string -> seq<byte>, e: Envelope, out: ByteVec, ghost s: seq<Slot>)
    requires InRange(e) && FitsMemory(nfc, e)
    requires HeadSlots(nfc, e, s) && out.data == Emit(s[..0])
    modifies out
    ensures out.data == Emit(s[..6])
  {
    WriteVarintSlot(out, 1, e.version as u64, s, 0);
    WriteVarintSlot(out, 2, e.plane as u64, s, 1);
    WriteTextSlot(nfc, out, 3, e.domain, s, 2);
    WriteBytesSlot(out, 4, e.authorKey, s, 3);
    WriteVarintSlot(out, 5, e.keyAlg as u64, s, 4);
    WriteTextSlot(nfc, out, 6, e.parent, s, 5);
  }

  /** Fields 7 to 11. */
  method EncodeTail(nfc: string -> seq<byte>, e: Envelope, out: ByteVec, ghost s: seq<Slot>)
    requires InRange(e) && FitsMemory(nfc, e)
    requires TailSlots(nfc, e, s) && out.data == Emit(s[..6])
    modifies out
    ensures out.data == Emit(s[..11])
  {
    WriteTextSlot(nfc, out, 7, e.scope, s, 6);
    WriteVarintSlot(out, 8, AsU64(e.createdAtMs as i64), s, 7);
    WriteBytesSlot(out, 9, e.nonce, s, 8);
    WriteVarintSlot(out, 10, e.priority as u64, s, 9);
    WriteBytesSlot(out, 11, e.body, s, 10);
  }

  method EncodeCanonical(nfc: string -> seq<byte>, e: Envelope) returns (out: ByteVec)
    requires InRange(e) && FitsMemory(nfc, e)
    ensures fresh(out) && out.data == CanonicalBytes(nfc, e)
  {
    out := new ByteVec();
    ghost var s := Slots(nfc, e);
    EncodeHead(nfc, e, out, s);
    EncodeTail(nfc, e, out, s);
    EmitStep(s, 11);
    if e.antiAbuse.Some? && !IsEmpty(e.antiAbuse.value) {
      var block := EncodeAntiAbuse(e.antiAbuse.value);
      WriteLenDelimited(out, 12, block.data);
    }
    assert s[..12] == s;
  }

  method EncodeSigned(nfc: string -> seq<byte>, e: Envelope) returns (out: ByteVec)
    requires InRange(e) && FitsMemory(nfc, e)
    ensures fresh(out) && out.data == SignedBytes(nfc, e)
  {
    out := EncodeCanonical(nfc, e);
    ghost var s := Slots(nfc, e) + [BytesSlot(13, e.signature)];
    assert s[..12] == Slots(nfc, e) && s[..13] == s;
    WriteBytesSlot(out, 13, e.signature, s, 12);
  }

  // ---------------------------------------------------------------- Python encoder

  method PyWriteBytesSlot(out: ByteVec, number: nat, value: seq<byte>, ghost slots: seq<Slot>, ghost i: nat)
    requires i < |slots| && slots[i] == BytesSlot(number, value)
    requires out.data == Emit(slots[..i])
    modifies out
    ensures out.data == Emit(slots[..i + 1])
  {
    EmitStep(slots, i);
    if value != [] {
      PyWriteLenDelimited(out, number, value);
    }
  }

  method PyWriteTextSlot(nfc: string -> seq<byte>, out: ByteVec, number: nat, value: string,
                         ghost slots: seq<Slot>, ghost i: nat)
    requires i < |slots| && slots[i] == TextSlot(nfc, number, value)
    requires out.data == Emit(slots[..i])
    modifies out
    ensures out.data == Emit(slots[..i + 1])
  {
    EmitStep(slots, i);
    if value != "" {
      PyWriteLenDelimited(out, number, nfc(value));
    }
  }

  method PyWriteVarintSlot(out: ByteVec, number: nat, value: int, ghost slots: seq<Slot>, ghost i: nat)
    requires i < |slots| && slots[i] == VarintSlot(number, value)
    requires out.data == Emit(slots[..i])
    modifies out
    ensures out.data == Emit(slots[..i + 1])
  {
    EmitStep(slots, i);
    if value != 0 {
      PyWriteVarintField(out, number, value);
    }
  }

  method PyEncodeAntiAbuse(aa: AntiAbuse) returns (out: ByteVec)
    ensures fresh(out) && out.data == Emit(AntiAbuseSlots(aa))
  {
    out := new ByteVec();
    ghost var s := AntiAbuseSlots(aa);
    PyWriteBytesSlot(out, 1, aa.credential, s, 0);
    PyWriteBytesSlot(out, 2, aa.nullifier, s, 1);
    PyWriteVarintSlot(out, 3, aa.epoch, s, 2);
    PyWriteBytesSlot(out, 4, aa.pow, s, 3);
    assert s[..4] == s;
  }

  /** Fields 1 to 6. */
  method PyEncodeHead(nfc: string -> seq<byte>, e: Envelope, out: ByteVec, ghost s: seq<Slot>)
    requires HeadSlots(nfc, e, s) && out.data == Emit(s[..0])
    modifies out
    ensures out.data == Emit(s[..6])
  {
    PyWriteVarintSlot(out, 1, e.version, s, 0);
    PyWriteVarintSlot(out, 2, e.plane, s, 1);
    PyWriteTextSlot(nfc, out, 3, e.domain, s, 2);
    PyWriteBytesSlot(out, 4, e.authorKey, s, 3);
    PyWriteVarintSlot(out, 5, e.keyAlg, s, 4);
    PyWriteTextSlot(nfc, out, 6, e.parent, s, 5);
  }

  /** Fields 7 to 11. */
  method PyEncodeTail(nfc: string -> seq<byte>, e: Envelope, out: ByteVec, ghost s: seq<Slot>)
    requires TailSlots(nfc, e, s) && out.data == Emit(s[..6])
    modifies out
    ensures out.data == Emit(s[..11])
  {
    PyWriteTextSlot(nfc, out, 7, e.scope, s, 6);
    PyWriteVarintSlot(out, 8, e.createdAtMs, s, 7);
    PyWriteBytesSlot(out, 9, e.nonce, s, 8);
    PyWriteVarintSlot(out, 10, e.priority, s, 9);
    PyWriteBytesSlot(out, 11, e.body, s, 10);
  }

  /** Over unbounded integers and with no precondition, the same bytes as `EncodeCanonical`. */
  method PyEncodeCanonical(nfc: string -> seq<byte>, e: Envelope) returns (out: ByteVec)
    ensures fresh(out) && out.data == CanonicalBytes(nfc, e)
  {
    out := new ByteVec();
    ghost var s := Slots(nfc, e);
    PyEncodeHead(nfc, e, out, s);
    PyEncodeTail(nfc, e, out, s);
    EmitStep(s, 11);
    if e.antiAbuse.Some? && !IsEmpty(e.antiAbuse.value) {
      var block := PyEncodeAntiAbuse(e.antiAbuse.value);
      PyWriteLenDelimited(out, 12, block.data);
    }
    assert s[..12] == s;
  }
}
