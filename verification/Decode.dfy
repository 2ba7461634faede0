/**
 Strict envelope decoding: read every field, check order, rebuild the envelope, then accept
 only if re-encoding gives the input back.

 `utf8` stands for a fatal UTF-8 decoder; it may also drop a leading byte-order mark, which
 is why an encoded text need not survive decoding (`TextSurvives`).
 */
module Decode {
  import opened Wrappers
  import opened Wire
  import opened Numbers
  import opened Canonical

  type Utf8 = seq<byte> -> Option<string>
  type Nfc = string -> seq<byte>

  // ---------------------------------------------------------------- JavaScript numbers

  function Exponent(v: nat): nat
  {
    if v < TWO_TO_THE_53 then 0 else 1 + Exponent(v / 2)
  }

  /** `Number(v)` of a bigint: the nearest double, ties to even. Exact below 2^53. */
  function ToNumber(v: nat): nat
  {
    var ulp := Pow2(Exponent(v));
    var q, r := v / ulp, v % ulp;
    if 2 * r > ulp || (2 * r == ulp && q % 2 == 1) then (q + 1) * ulp else q * ulp
  }

  lemma {:induction false} ExponentScale(v: nat)
    requires v >= TWO_TO_THE_53
    ensures Exponent(v) >= 1
    ensures TWO_TO_THE_53 / 2 * Pow2(Exponent(v)) <= v
  {
    if v / 2 >= TWO_TO_THE_53 {
      ExponentScale(v / 2);
    } else {
      assert Exponent(v / 2) == 0;
      assert Pow2(1) == 2 * Pow2(0);
    }
  }

  lemma ToNumberFacts(v: nat)
    ensures v < TWO_TO_THE_53 ==> ToNumber(v) == v
    ensures v >= TWO_TO_THE_53 ==> ToNumber(v) >= TWO_TO_THE_53
  {
    if v < TWO_TO_THE_53 {
      assert Pow2(0) == 1;
    } else {
      ExponentScale(v);
      var ulp := Pow2(Exponent(v));
      assert ulp == 2 * Pow2(Exponent(v) - 1);
      QuotientAtLeast(v, ulp, TWO_TO_THE_53 / 2);
      LargeProduct(v / ulp, ulp);
      LargeProduct(v / ulp + 1, ulp);
    }
  }

  lemma {:induction false} ExponentIs(v: nat, n: nat)
    requires Pow2(52 + n) <= v < Pow2(53 + n)
    ensures Exponent(v) == n
  {
    Pow2At53(n);
    if n > 0 {
      ExponentIs(v / 2, n - 1);
    }
  }

  lemma Pow2At53(n: nat)
    ensures n == 0 ==> Pow2(53 + n) == TWO_TO_THE_53
    ensures n > 0 ==> Pow2(52 + n) >= TWO_TO_THE_53
    ensures Pow2(53 + n) == 2 * Pow2(52 + n)
    ensures n > 0 ==> Pow2(52 + n) == 2 * Pow2(51 + n)
  {
    assert Pow2(53) == TWO_TO_THE_53 by {
      assert Pow2(13) == 0x2000 && Pow2(20) == 0x10_0000;
      Pow2Add(20, 20);
      Pow2Add(13, 40);
    }
    if n > 0 {
      Pow2Add(53, n - 1);
      MulMonotone(1, Pow2(n - 1), TWO_TO_THE_53);
    }
  }

  /**
   A number between 2^(52+n) and 2^(53+n) becomes a multiple of 2^n at most half of 2^n away, an even
   multiple when there are two as near.
   */
  lemma NearestDouble(v: nat, n: nat) returns (m: nat)
    requires Pow2(52 + n) <= v < Pow2(53 + n)
    ensures ToNumber(v) == m * Pow2(n)
    ensures 2 * (m * Pow2(n) - v) <= Pow2(n) && 2 * (v - m * Pow2(n)) <= Pow2(n)
    ensures 2 * (m * Pow2(n) - v) == Pow2(n) || 2 * (v - m * Pow2(n)) == Pow2(n) ==> m % 2 == 0
  {
    ExponentIs(v, n);
    m := RoundedQuotient(v, Pow2(n));
  }

  lemma RoundedQuotient(v: nat, ulp: nat) returns (m: nat)
    requires ulp > 0
    ensures var q, r := v / ulp, v % ulp;
      m == if 2 * r > ulp || (2 * r == ulp && q % 2 == 1) then q + 1 else q
    ensures 2 * (m * ulp - v) <= ulp && 2 * (v - m * ulp) <= ulp
    ensures 2 * (m * ulp - v) == ulp || 2 * (v - m * ulp) == ulp ==> m % 2 == 0
  {
    var q, r := v / ulp, v % ulp;
    assert v == q * ulp + r;
    assert (q + 1) * ulp == q * ulp + ulp;
    m := if 2 * r > ulp || (2 * r == ulp && q % 2 == 1) then q + 1 else q;
  }

  lemma QuotientAtLeast(v: nat, d: nat, c: nat)
    requires d > 0 && c * d <= v
    ensures c <= v / d
  {
    assert v == (v / d) * d + v % d;
    if v / d + 1 <= c {
      MulMonotone(v / d + 1, c, d);
    }
  }

  lemma LargeProduct(q: nat, ulp: nat)
    requires q >= TWO_TO_THE_53 / 2 && ulp >= 2
    ensures q * ulp >= TWO_TO_THE_53
  {
    MulMonotone(2, ulp, q);
  }

  // ---------------------------------------------------------------- reading fields

  function ParseField(s: seq<byte>): (r: Result<(Field, seq<byte>), DecodeError>)
    ensures r.Ok? ==> |r.value.1| < |s|
  {
    match ParseVarint(s, 10)
    case Err(e) => Err(e)
    case Ok((tag, afterTag)) =>
      var num, wireType := ToNumber(tag / 8), tag % 8;
      if num == 0 then Err(FieldNumberZero)
      else if wireType != WIRE_VARINT && wireType != WIRE_LEN then Err(UnsupportedWireType(num, wireType))
      else match ParseVarint(afterTag, 10)
        case Err(e) => Err(e)
        case Ok((value, rest)) =>
          if wireType == WIRE_VARINT then Ok((VarintField(num, value), rest))
          else if |rest| < ToNumber(value) then Err(LengthExceedsBuffer)
          else Ok((LenField(num, rest[..ToNumber(value)]), rest[ToNumber(value)..]))
  }

  function ParseFields(s: seq<byte>): Result<seq<Field>, DecodeError>
    decreases |s|
  {
    if s == [] then Ok([])
    else match ParseField(s)
      case Err(e) => Err(e)
      case Ok((f, rest)) =>
        match ParseFields(rest)
        case Err(e) => Err(e)
        case Ok(fs) => Ok([f] + fs)
  }

  /** What the reader can hold: a ten-byte varint, and a length that is an exact double. */
  predicate Readable(f: Field)
  {
    && 0 < f.num < TWO_TO_THE_53
    && (if f.VarintField? then |Varint(f.value)| <= 10 else |f.payload| < TWO_TO_THE_53)
  }

  lemma SmallVarint(v: nat)
    requires v < TWO_TO_THE_64
    ensures |Varint(v)| <= 10
  {
    VarintBounds(v);
  }

  lemma ReadBackField(f: Field, rest: seq<byte>)
    requires Readable(f)
    ensures ParseField(EncodeField(f) + rest) == Ok((f, rest))
  {
    var s := EncodeField(f) + rest;
    EncodeFieldThen(f, rest);
    SmallVarint(Tag(f));
    ReadBackVarint(Tag(f), Content(f) + rest, 10);
    ToNumberFacts(f.num);
    assert Tag(f) / 8 == f.num && Tag(f) % 8 == if f.VarintField? then WIRE_VARINT else WIRE_LEN;
    if f.VarintField? {
      ReadBackVarint(f.value, rest, 10);
    } else {
      Assoc(Varint(|f.payload|), f.payload, rest);
      SmallVarint(|f.payload|);
      ReadBackVarint(|f.payload|, f.payload + rest, 10);
      ToNumberFacts(|f.payload|);
      assert (f.payload + rest)[..|f.payload|] == f.payload;
      assert (f.payload + rest)[|f.payload|..] == rest;
    }
  }

  lemma {:induction false} ReadBackFields(fs: seq<Field>)
    requires forall f :: f in fs ==> Readable(f)
    ensures ParseFields(EncodeFields(fs)) == Ok(fs)
  {
    if fs != [] {
      ReadBackField(fs[0], EncodeFields(fs[1..]));
      ReadBackFields(fs[1..]);
      assert fs == [fs[0]] + fs[1..];
    }
  }

  /** Everything the reader hands on is readable, and what it read is what it consumed. */
  lemma {:induction false} ParsedVarintShort(s: seq<byte>, fuel: nat)
    requires ParseVarint(s, fuel).Ok?
    ensures |Varint(ParseVarint(s, fuel).value.0)| <= fuel
    decreases fuel
  {
    if s[0] >= 128 {
      ParsedVarintShort(s[1..], fuel - 1);
      var w := ParseVarint(s[1..], fuel - 1).value.0;
      assert (s[0] - 128 + 128 * w) / 128 == w;
    }
  }

  // ---------------------------------------------------------------- order and lookup

  /** Ascending, no repeats: the first field that breaks the rule is the error. */
  function OrderError(fs: seq<Field>, previous: nat): Option<DecodeError>
  {
    if fs == [] then None
    else if fs[0].num == previous then Some(RepeatedField(fs[0].num))
    else if fs[0].num < previous then Some(FieldOutOfOrder(fs[0].num))
    else OrderError(fs[1..], fs[0].num)
  }

  lemma {:induction false} AscendingIsOrdered(fs: seq<Field>, previous: nat)
    requires forall i :: 0 <= i < |fs| ==> previous < fs[i].num
    requires forall i, j :: 0 <= i < j < |fs| ==> fs[i].num < fs[j].num
    ensures OrderError(fs, previous).None?
  {
    if fs != [] {
      AscendingIsOrdered(fs[1..], fs[0].num);
    }
  }

  /** The last field with number `n`. */
  function Lookup(fs: seq<Field>, n: nat): Option<Field>
  {
    if fs == [] then None
    else if fs[|fs| - 1].num == n then Some(fs[|fs| - 1])
    else Lookup(fs[..|fs| - 1], n)
  }

  lemma {:induction false} LookupAbsent(fs: seq<Field>, n: nat)
    requires forall i :: 0 <= i < |fs| ==> fs[i].num != n
    ensures Lookup(fs, n).None?
  {
    if fs != [] {
      LookupAbsent(fs[..|fs| - 1], n);
    }
  }

  /** Looking a number up among the compacted fields finds its slot. */
  lemma {:induction false} LookupCompact(slots: seq<Slot>, base: nat, n: nat)
    requires Numbered(slots, base) && base <= n < base + |slots|
    ensures Lookup(Compact(slots), n) == slots[n - base]
  {
    var k := |slots| - 1;
    var front, last := slots[..k], slots[k];
    assert slots == front + [last];
    CompactAppend(front, [last]);
    assert [last][1..] == [];
    var c := Compact(slots);
    if last.Some? {
      assert c == Compact(front) + [last.value];
      assert c[..|c| - 1] == Compact(front);
    } else {
      assert c == Compact(front);
    }
    if n < base + k {
      LookupCompact(front, base, n);
    } else {
      CompactNumbers(front, base);
      LookupAbsent(Compact(front), n);
    }
  }

  // ---------------------------------------------------------------- rebuilding

  function BigIntOf(f: Option<Field>): nat
  {
    match f
    case Some(VarintField(_, v)) => v
    case _ => 0
  }

  function NumberOf(f: Option<Field>): nat
  {
    ToNumber(BigIntOf(f))
  }

  function BytesOf(f: Option<Field>): seq<byte>
  {
    match f
    case Some(LenField(_, p)) => p
    case _ => []
  }

  /** An absent field leaves the initial empty text; `None` is malformed UTF-8. */
  function TextOf(utf8: Utf8, f: Option<Field>): Option<string>
  {
    if f.None? then Some("") else utf8(BytesOf(f))
  }

  function TextOr(t: Option<string>): string
  {
    if t.Some? then t.value else ""
  }

  function UnknownBlockField(fs: seq<Field>): Option<DecodeError>
  {
    if fs == [] then None
    else if !(1 <= fs[0].num <= 4) then Some(UnknownField(fs[0].num))
    else UnknownBlockField(fs[1..])
  }

  function DecodeAntiAbuse(buf: seq<byte>): Result<AntiAbuse, DecodeError>
  {
    match ParseFields(buf)
    case Err(e) => Err(e)
    case Ok(fs) =>
      if OrderError(fs, 0).Some? then Err(OrderError(fs, 0).value)
      else if UnknownBlockField(fs).Some? then Err(UnknownBlockField(fs).value)
      else
        Ok(AntiAbuse(BytesOf(Lookup(fs, 1)), BytesOf(Lookup(fs, 2)), NumberOf(Lookup(fs, 3)), BytesOf(Lookup(fs, 4))))
  }

  function BlockOf(f: Option<Field>): Option<AntiAbuse>
  {
    if f.None? then None
    else match DecodeAntiAbuse(BytesOf(f))
      case Ok(aa) => Some(aa)
      case Err(_) => None
  }

  function FieldError(utf8: Utf8, f: Field): Option<DecodeError>
  {
    if !(1 <= f.num <= 13) then Some(UnknownField(f.num))
    else if f.num in {3, 6, 7} && TextOf(utf8, Some(f)).None? then Some(InvalidUtf8(f.num))
    else if f.num == 12 && DecodeAntiAbuse(BytesOf(Some(f))).Err? then Some(DecodeAntiAbuse(BytesOf(Some(f))).error)
    else None
  }

  function FieldsError(utf8: Utf8, fs: seq<Field>): Option<DecodeError>
  {
    if fs == [] then None
    else if FieldError(utf8, fs[0]).Some? then FieldError(utf8, fs[0])
    else FieldsError(utf8, fs[1..])
  }

  function Rebuild(utf8: Utf8, fs: seq<Field>): Envelope
  {
    Envelope(
      version := NumberOf(Lookup(fs, 1)),
      plane := NumberOf(Lookup(fs, 2)),
      domain := TextOr(TextOf(utf8, Lookup(fs, 3))),
      authorKey := BytesOf(Lookup(fs, 4)),
      keyAlg := NumberOf(Lookup(fs, 5)),
      parent := TextOr(TextOf(utf8, Lookup(fs, 6))),
      scope := TextOr(TextOf(utf8, Lookup(fs, 7))),
      createdAtMs := BigIntOf(Lookup(fs, 8)),
      nonce := BytesOf(Lookup(fs, 9)),
      priority := NumberOf(Lookup(fs, 10)),
      body := BytesOf(Lookup(fs, 11)),
      antiAbuse := BlockOf(Lookup(fs, 12)),
      signature := BytesOf(Lookup(fs, 13)))
  }

  function DecodeSigned(nfc: Nfc, utf8: Utf8, raw: seq<byte>): Result<Envelope, DecodeError>
  {
    match ParseFields(raw)
    case Err(e) => Err(e)
    case Ok(fs) =>
      if OrderError(fs, 0).Some? then Err(OrderError(fs, 0).value)
      else if FieldsError(utf8, fs).Some? then Err(FieldsError(utf8, fs).value)
      else if SignedBytes(nfc, Rebuild(utf8, fs)) != raw then Err(NotCanonical)
      else Ok(Rebuild(utf8, fs))
  }

  lemma DecodedIsCanonical(nfc: Nfc, utf8: Utf8, raw: seq<byte>)
    requires DecodeSigned(nfc, utf8, raw).Ok?
    ensures SignedBytes(nfc, DecodeSigned(nfc, utf8, raw).value) == raw
  {}

  // ---------------------------------------------------------------- what is accepted

  /** An integer that fits a ten-byte varint and is not a non-zero multiple of 2^64. */
  predicate WireInteger(v: int)
  {
    |Varint(Unsigned(v))| <= 10 && (Unsigned(v) == 0 ==> v == 0)
  }

  /** A number that also survives the trip through a double. */
  predicate WireNumber(v: int)
  {
    WireInteger(v) && ToNumber(Unsigned(v)) == Unsigned(v)
  }

  predicate WireBlock(aa: AntiAbuse)
  {
    && WireNumber(aa.epoch)
    && |aa.credential| < TWO_TO_THE_53 && |aa.nullifier| < TWO_TO_THE_53 && |aa.pow| < TWO_TO_THE_53
    && |Emit(AntiAbuseSlots(aa))| < TWO_TO_THE_53
  }

  predicate TextFits(nfc: Nfc, s: string)
  {
    s == "" || |nfc(s)| < TWO_TO_THE_53
  }

  /** Field values the reader can represent, and buffers a `Uint8Array` can hold. */
  predicate WireRange(nfc: Nfc, e: Envelope)
  {
    && WireNumber(e.version) && WireNumber(e.plane) && WireNumber(e.keyAlg) && WireNumber(e.priority)
    && WireInteger(e.createdAtMs)
    && TextFits(nfc, e.domain) && TextFits(nfc, e.parent) && TextFits(nfc, e.scope)
    && |e.authorKey| < TWO_TO_THE_53 && |e.nonce| < TWO_TO_THE_53 && |e.body| < TWO_TO_THE_53
    && |e.signature| < TWO_TO_THE_53
    && (e.antiAbuse.Some? ==> WireBlock(e.antiAbuse.value))
  }

  /** The text comes back from the wire as one that encodes to the same bytes. */
  predicate TextSurvives(nfc: Nfc, utf8: Utf8, s: string)
  {
    s == "" || (utf8(nfc(s)).Some? && utf8(nfc(s)).value != "" && nfc(utf8(nfc(s)).value) == nfc(s))
  }

  predicate TextsSurvive(nfc: Nfc, utf8: Utf8, e: Envelope)
  {
    TextSurvives(nfc, utf8, e.domain) && TextSurvives(nfc, utf8, e.parent) && TextSurvives(nfc, utf8, e.scope)
  }

  function TextReceived(nfc: Nfc, utf8: Utf8, s: string): string
  {
    if s == "" then "" else TextOr(utf8(nfc(s)))
  }

  function BlockReceived(aa: Option<AntiAbuse>): Option<AntiAbuse>
  {
    if aa.None? || aa.value == AntiAbuse([], [], 0, []) then None
    else Some(aa.value.(epoch := Unsigned(aa.value.epoch)))
  }

  /** What a receiver holds after decoding: NFC texts, unsigned numbers, no empty block. */
  function Received(nfc: Nfc, utf8: Utf8, e: Envelope): Envelope
  {
    e.(version := Unsigned(e.version), plane := Unsigned(e.plane), keyAlg := Unsigned(e.keyAlg),
       priority := Unsigned(e.priority), createdAtMs := Unsigned(e.createdAtMs),
       domain := TextReceived(nfc, utf8, e.domain), parent := TextReceived(nfc, utf8, e.parent),
       scope := TextReceived(nfc, utf8, e.scope), antiAbuse := BlockReceived(e.antiAbuse))
  }

  function SignedSlots(nfc: Nfc, e: Envelope): seq<Slot>
  {
    Slots(nfc, e) + [BytesSlot(13, e.signature)]
  }

  lemma {:induction false} CompactMembers(slots: seq<Slot>, f: Field)
    requires f in Compact(slots)
    ensures Some(f) in slots
  {
    if slots != [] && !(slots[0].Some? && slots[0].value == f) {
      CompactMembers(slots[1..], f);
    }
  }

  lemma BlockReadable(aa: AntiAbuse)
    requires WireBlock(aa)
    ensures forall f :: f in Compact(AntiAbuseSlots(aa)) ==> Readable(f)
  {
    var s := AntiAbuseSlots(aa);
    forall f | f in Compact(s) ensures Readable(f) {
      CompactMembers(s, f);
    }
  }

  lemma LookupAll(slots: seq<Slot>)
    requires Numbered(slots, 1)
    ensures forall n :: 1 <= n <= |slots| ==> Lookup(Compact(slots), n) == slots[n - 1]
  {
    forall n | 1 <= n <= |slots| ensures Lookup(Compact(slots), n) == slots[n - 1] {
      LookupCompact(slots, 1, n);
    }
  }

  /** Reading back any ascending list of slots. */
  lemma ReadBackSlots(slots: seq<Slot>, fs: seq<Field>)
    requires Numbered(slots, 1) && fs == Compact(slots)
    requires forall f :: f in fs ==> Readable(f)
    ensures ParseFields(Emit(slots)) == Ok(fs)
    ensures OrderError(fs, 0).None?
    ensures forall n :: 1 <= n <= |slots| ==> Lookup(fs, n) == slots[n - 1]
    ensures forall i :: 0 <= i < |fs| ==> 1 <= fs[i].num <= |slots|
  {
    LookupAll(slots);
    CompactNumbers(slots, 1);
    AscendingIsOrdered(fs, 0);
    ReadBackFields(fs);
  }

  lemma BlockRoundTrip(aa: AntiAbuse)
    requires WireBlock(aa)
    ensures DecodeAntiAbuse(Emit(AntiAbuseSlots(aa))) == Ok(aa.(epoch := Unsigned(aa.epoch)))
  {
    var s := AntiAbuseSlots(aa);
    BlockReadable(aa);
    ReadBackSlots(s, Compact(s));
    KnownBlockFields(Compact(s));
    BlockValues(aa, Compact(s));
  }

  lemma BlockValues(aa: AntiAbuse, fs: seq<Field>)
    requires WireNumber(aa.epoch)
    requires forall n :: 1 <= n <= 4 ==> Lookup(fs, n) == AntiAbuseSlots(aa)[n - 1]
    ensures BytesOf(Lookup(fs, 1)) == aa.credential && BytesOf(Lookup(fs, 2)) == aa.nullifier
    ensures NumberOf(Lookup(fs, 3)) == Unsigned(aa.epoch) && BytesOf(Lookup(fs, 4)) == aa.pow
  {
    ToNumberFacts(0);
    assert Lookup(fs, 1) == AntiAbuseSlots(aa)[0] && Lookup(fs, 2) == AntiAbuseSlots(aa)[1];
    assert Lookup(fs, 3) == AntiAbuseSlots(aa)[2] && Lookup(fs, 4) == AntiAbuseSlots(aa)[3];
  }

  lemma {:induction false} KnownBlockFields(fs: seq<Field>)
    requires forall i :: 0 <= i < |fs| ==> 1 <= fs[i].num <= 4
    ensures UnknownBlockField(fs).None?
  {
    if fs != [] {
      KnownBlockFields(fs[1..]);
    }
  }

  lemma SlotsReadable(nfc: Nfc, e: Envelope)
    requires WireRange(nfc, e)
    ensures forall f :: f in Compact(SignedSlots(nfc, e)) ==> Readable(f)
  {
    var s := SignedSlots(nfc, e);
    forall f | f in Compact(s) ensures Readable(f) {
      CompactMembers(s, f);
      SlotsReadableAt(nfc, e, f);
    }
  }

  lemma SlotsReadableAt(nfc: Nfc, e: Envelope, f: Field)
    requires WireRange(nfc, e) && Some(f) in SignedSlots(nfc, e)
    ensures Readable(f)
  {}

  ghost predicate Holds(nfc: Nfc, e: Envelope, fs: seq<Field>)
  {
    forall n :: 1 <= n <= 13 ==> Lookup(fs, n) == SignedSlots(nfc, e)[n - 1]
  }

  lemma RebuildNumbers(nfc: Nfc, e: Envelope, fs: seq<Field>)
    requires WireRange(nfc, e) && Holds(nfc, e, fs)
    ensures NumberOf(Lookup(fs, 1)) == Unsigned(e.version) && NumberOf(Lookup(fs, 2)) == Unsigned(e.plane)
    ensures NumberOf(Lookup(fs, 5)) == Unsigned(e.keyAlg) && NumberOf(Lookup(fs, 10)) == Unsigned(e.priority)
    ensures BigIntOf(Lookup(fs, 8)) == Unsigned(e.createdAtMs)
  {
    ToNumberFacts(0);
    var s := SignedSlots(nfc, e);
    assert Lookup(fs, 1) == s[0] && Lookup(fs, 2) == s[1];
    assert Lookup(fs, 5) == s[4] && Lookup(fs, 8) == s[7] && Lookup(fs, 10) == s[9];
  }

  lemma RebuildBytes(nfc: Nfc, e: Envelope, fs: seq<Field>)
    requires Holds(nfc, e, fs)
    ensures BytesOf(Lookup(fs, 4)) == e.authorKey && BytesOf(Lookup(fs, 9)) == e.nonce
    ensures BytesOf(Lookup(fs, 11)) == e.body && BytesOf(Lookup(fs, 13)) == e.signature
  {
    var s := SignedSlots(nfc, e);
    assert Lookup(fs, 4) == s[3] && Lookup(fs, 9) == s[8] && Lookup(fs, 11) == s[10] && Lookup(fs, 13) == s[12];
  }

  lemma RebuildTexts(nfc: Nfc, utf8: Utf8, e: Envelope, fs: seq<Field>)
    requires Holds(nfc, e, fs)
    ensures TextOr(TextOf(utf8, Lookup(fs, 3))) == TextReceived(nfc, utf8, e.domain)
    ensures TextOr(TextOf(utf8, Lookup(fs, 6))) == TextReceived(nfc, utf8, e.parent)
    ensures TextOr(TextOf(utf8, Lookup(fs, 7))) == TextReceived(nfc, utf8, e.scope)
  {
    var s := SignedSlots(nfc, e);
    assert Lookup(fs, 3) == s[2] && Lookup(fs, 6) == s[5] && Lookup(fs, 7) == s[6];
  }

  lemma RebuildBlock(nfc: Nfc, e: Envelope, fs: seq<Field>)
    requires WireRange(nfc, e) && Holds(nfc, e, fs)
    ensures BlockOf(Lookup(fs, 12)) == BlockReceived(e.antiAbuse)
  {
    assert Lookup(fs, 12) == SignedSlots(nfc, e)[11];
    if e.antiAbuse.Some? {
      BlockRoundTrip(e.antiAbuse.value);
    }
  }

  lemma RebuildSlots(nfc: Nfc, utf8: Utf8, e: Envelope, fs: seq<Field>)
    requires WireRange(nfc, e) && Holds(nfc, e, fs)
    ensures Rebuild(utf8, fs) == Received(nfc, utf8, e)
  {
    RebuildNumbers(nfc, e, fs);
    RebuildBytes(nfc, e, fs);
    RebuildTexts(nfc, utf8, e, fs);
    RebuildBlock(nfc, e, fs);
  }

  predicate TextDecodes(nfc: Nfc, utf8: Utf8, s: string)
  {
    s == "" || utf8(nfc(s)).Some?
  }

  lemma ReencodeText(nfc: Nfc, utf8: Utf8, n: nat, s: string)
    requires TextDecodes(nfc, utf8, s)
    ensures TextSlot(nfc, n, TextReceived(nfc, utf8, s)) == TextSlot(nfc, n, s) <==> TextSurvives(nfc, utf8, s)
  {}

  lemma ReencodeBlock(aa: Option<AntiAbuse>)
    requires aa.Some? ==> WireBlock(aa.value)
    ensures AntiAbuseSlot(BlockReceived(aa)) == AntiAbuseSlot(aa)
  {
    if BlockReceived(aa).Some? {
      assert AntiAbuseSlots(BlockReceived(aa).value) == AntiAbuseSlots(aa.value);
    }
  }

  /** Re-encoding what was received gives the same slots exactly when the texts survived. */
  lemma ReencodeReceived(nfc: Nfc, utf8: Utf8, e: Envelope)
    requires WireRange(nfc, e)
    requires TextDecodes(nfc, utf8, e.domain) && TextDecodes(nfc, utf8, e.parent) && TextDecodes(nfc, utf8, e.scope)
    ensures SignedSlots(nfc, Received(nfc, utf8, e)) == SignedSlots(nfc, e) <==> TextsSurvive(nfc, utf8, e)
  {
    var s, t := SignedSlots(nfc, Received(nfc, utf8, e)), SignedSlots(nfc, e);
    ReencodeText(nfc, utf8, 3, e.domain);
    ReencodeText(nfc, utf8, 6, e.parent);
    ReencodeText(nfc, utf8, 7, e.scope);
    ReencodeBlock(e.antiAbuse);
    if s == t {
      assert s[2] == t[2] && s[5] == t[5] && s[6] == t[6];
    }
  }

  predicate SlotFine(utf8: Utf8, s: Slot)
  {
    s.Some? ==> FieldError(utf8, s.value).None?
  }

  lemma {:induction false} FieldsErrorIff(utf8: Utf8, slots: seq<Slot>)
    ensures FieldsError(utf8, Compact(slots)).None? <==> forall i :: 0 <= i < |slots| ==> SlotFine(utf8, slots[i])
  {
    if slots != [] {
      var rest := slots[1..];
      FieldsErrorIff(utf8, rest);
      assert slots == [slots[0]] + rest;
      assert (forall i :: 0 <= i < |slots| ==> SlotFine(utf8, slots[i]))
        <==> SlotFine(utf8, slots[0]) && forall i :: 0 <= i < |rest| ==> SlotFine(utf8, rest[i]);
      if slots[0].Some? {
        assert Compact(slots)[1..] == Compact(rest);
      } else {
        assert Compact(slots) == Compact(rest);
      }
    }
  }

  lemma TextFine(nfc: Nfc, utf8: Utf8, n: nat, s: string)
    requires n in {3, 6, 7}
    ensures SlotFine(utf8, TextSlot(nfc, n, s)) <==> TextDecodes(nfc, utf8, s)
  {}

  lemma BlockFine(utf8: Utf8, aa: Option<AntiAbuse>)
    requires aa.Some? ==> WireBlock(aa.value)
    ensures SlotFine(utf8, AntiAbuseSlot(aa))
  {
    if aa.Some? {
      BlockRoundTrip(aa.value);
    }
  }

  lemma TextErrorIff(nfc: Nfc, utf8: Utf8, e: Envelope)
    requires WireRange(nfc, e)
    ensures FieldsError(utf8, Compact(SignedSlots(nfc, e))).None?
       <==> TextDecodes(nfc, utf8, e.domain) && TextDecodes(nfc, utf8, e.parent) && TextDecodes(nfc, utf8, e.scope)
  {
    var s := SignedSlots(nfc, e);
    FieldsErrorIff(utf8, s);
    OtherSlotsFine(nfc, utf8, e);
    TextFine(nfc, utf8, 3, e.domain);
    TextFine(nfc, utf8, 6, e.parent);
    TextFine(nfc, utf8, 7, e.scope);
    assert s[2] == TextSlot(nfc, 3, e.domain) && s[5] == TextSlot(nfc, 6, e.parent);
    assert s[6] == TextSlot(nfc, 7, e.scope);
  }

  lemma OtherSlotsFine(nfc: Nfc, utf8: Utf8, e: Envelope)
    requires WireRange(nfc, e)
    ensures forall i :: 0 <= i < 13 && i != 2 && i != 5 && i != 6 ==> SlotFine(utf8, SignedSlots(nfc, e)[i])
  {
    var s := SignedSlots(nfc, e);
    BlockFine(utf8, e.antiAbuse);
    forall i | 0 <= i < 13 && i != 2 && i != 5 && i != 6
      ensures SlotFine(utf8, s[i])
    {
      if i == 11 {
        assert s[11] == AntiAbuseSlot(e.antiAbuse);
      } else {
        assert s[i].Some? ==> s[i].value.num in {1, 2, 4, 5, 8, 9, 10, 11, 13};
      }
    }
  }

  /** Decoding what an encoder produced: accepted exactly when the texts survive. */
  lemma DecodeEncoded(nfc: Nfc, utf8: Utf8, e: Envelope)
    requires WireRange(nfc, e)
    ensures DecodeSigned(nfc, utf8, SignedBytes(nfc, e)).Ok? <==> TextsSurvive(nfc, utf8, e)
    ensures TextsSurvive(nfc, utf8, e) ==>
      DecodeSigned(nfc, utf8, SignedBytes(nfc, e)) == Ok(Received(nfc, utf8, e))
  {
    var s := SignedSlots(nfc, e);
    var fs := Compact(s);
    var d := Received(nfc, utf8, e);
    SlotsNumbered(nfc, e);
    SlotsReadable(nfc, e);
    ReadBackSlots(s, fs);
    TextErrorIff(nfc, utf8, e);
    RebuildSlots(nfc, utf8, e, fs);
    if FieldsError(utf8, fs).None? {
      ReencodeReceived(nfc, utf8, e);
      if SignedBytes(nfc, d) == SignedBytes(nfc, e) {
        SlotsNumbered(nfc, d);
        EmitInjective(SignedSlots(nfc, d), s, 1);
      }
    }
  }

  /** Two envelopes with the same texts on the wire and the same other fields, read off field by field. */
  ghost predicate ReadsAs(nfc: Nfc, d: Envelope, e: Envelope)
  {
    && d.version == Unsigned(e.version) && d.plane == Unsigned(e.plane) && d.keyAlg == Unsigned(e.keyAlg)
    && d.priority == Unsigned(e.priority) && d.createdAtMs == Unsigned(e.createdAtMs)
    && (d.domain == "" <==> e.domain == "") && nfc(d.domain) == nfc(e.domain)
    && (d.parent == "" <==> e.parent == "") && nfc(d.parent) == nfc(e.parent)
    && (d.scope == "" <==> e.scope == "") && nfc(d.scope) == nfc(e.scope)
    && d.authorKey == e.authorKey && d.nonce == e.nonce && d.body == e.body && d.signature == e.signature
    && (var a := if d.antiAbuse.Some? then d.antiAbuse.value else AntiAbuse([], [], 0, []);
        var b := if e.antiAbuse.Some? then e.antiAbuse.value else AntiAbuse([], [], 0, []);
        a.credential == b.credential && a.nullifier == b.nullifier && a.epoch == Unsigned(b.epoch) && a.pow == b.pow)
    && d.antiAbuse != Some(AntiAbuse([], [], 0, []))
  }

  lemma ReceivedReadsAs(nfc: Nfc, utf8: Utf8, e: Envelope)
    requires WireRange(nfc, e) && TextsSurvive(nfc, utf8, e)
    ensures ReadsAs(nfc, Received(nfc, utf8, e), e)
  {}

  /**
   A decoded encoding has what was encoded, field by field: numbers in their unsigned form, texts
   that encode to the same bytes, and every part of the anti-abuse block.
   */
  lemma DecodedFields(nfc: Nfc, utf8: Utf8, e: Envelope)
    requires WireRange(nfc, e) && TextsSurvive(nfc, utf8, e)
    ensures var r := DecodeSigned(nfc, utf8, SignedBytes(nfc, e)); r.Ok? && ReadsAs(nfc, r.value, e)
  {
    DecodeEncoded(nfc, utf8, e);
    ReceivedReadsAs(nfc, utf8, e);
  }

  // ---------------------------------------------------------------- exactly one accepted form

  lemma {:induction false} OverlongVarintRefused(v: nat, rest: seq<byte>, fuel: nat)
    requires |Varint(v)| > fuel
    ensures ParseVarint(Varint(v) + rest, fuel).Err?
    decreases v
  {
    if fuel > 0 {
      OverlongVarintRefused(v / 128, rest, fuel - 1);
      assert (Varint(v) + rest)[1..] == Varint(v / 128) + rest;
    }
  }

  /** A field that was read is readable, given a known number and a buffer that exists. */
  lemma ReadFieldReadable(f: Field, rest: seq<byte>)
    requires 0 < f.num <= 13 && (f.LenField? ==> |f.payload| < TWO_TO_THE_53)
    requires ParseField(EncodeField(f) + rest).Ok?
    ensures Readable(f)
  {
    EncodeFieldThen(f, rest);
    SmallVarint(Tag(f));
    ReadBackVarint(Tag(f), Content(f) + rest, 10);
    if f.VarintField? && |Varint(f.value)| > 10 {
      OverlongVarintRefused(f.value, rest, 10);
    }
  }

  lemma {:induction false} ReadFieldsReadable(fs: seq<Field>)
    requires forall f :: f in fs ==> 0 < f.num <= 13 && (f.LenField? ==> |f.payload| < TWO_TO_THE_53)
    requires ParseFields(EncodeFields(fs)).Ok?
    ensures forall f :: f in fs ==> Readable(f)
  {
    if fs != [] {
      var first, rest := fs[0], fs[1..];
      ReadFirstReadable(first, EncodeFields(rest));
      assert forall f :: f in rest ==> f in fs;
      ReadFieldsReadable(rest);
      forall f | f in fs ensures Readable(f) {
        assert f == first || f in rest;
      }
    }
  }

  lemma ReadFirstReadable(f: Field, rest: seq<byte>)
    requires 0 < f.num <= 13 && (f.LenField? ==> |f.payload| < TWO_TO_THE_53)
    requires ParseFields(EncodeField(f) + rest).Ok?
    ensures Readable(f) && ParseFields(rest).Ok?
  {
    ReadFieldReadable(f, rest);
    ReadBackField(f, rest);
  }

  lemma {:induction false} PayloadsWithin(fs: seq<Field>)
    ensures forall f :: f in fs && f.LenField? ==> |f.payload| <= |EncodeFields(fs)|
  {
    if fs != [] {
      PayloadsWithin(fs[1..]);
      assert fs == [fs[0]] + fs[1..];
    }
  }

  /** If emitted slots can be read at all, then they are read back. */
  lemma ReadSlots(slots: seq<Slot>, fs: seq<Field>)
    requires Numbered(slots, 1) && |slots| <= 13 && fs == Compact(slots)
    requires |EncodeFields(fs)| < TWO_TO_THE_53
    requires ParseFields(EncodeFields(fs)).Ok?
    ensures ParseFields(EncodeFields(fs)) == Ok(fs)
    ensures forall f :: f in fs ==> Readable(f)
  {
    CompactNumbers(slots, 1);
    PayloadsWithin(fs);
    ReadFieldsReadable(fs);
    ReadBackFields(fs);
  }

  lemma AcceptedFacts(nfc: Nfc, utf8: Utf8, raw: seq<byte>, d: Envelope)
    requires DecodeSigned(nfc, utf8, raw) == Ok(d)
    ensures ParseFields(raw).Ok? && d == Rebuild(utf8, ParseFields(raw).value)
    ensures FieldsError(utf8, ParseFields(raw).value).None?
    ensures EncodeFields(Compact(SignedSlots(nfc, d))) == raw
  {}

  /** The fields of an accepted input are the slots of the envelope it decodes to. */
  lemma AcceptedFields(nfc: Nfc, d: Envelope, raw: seq<byte>)
    requires |raw| < TWO_TO_THE_53
    requires ParseFields(raw).Ok? && EncodeFields(Compact(SignedSlots(nfc, d))) == raw
    ensures ParseFields(raw) == Ok(Compact(SignedSlots(nfc, d)))
    ensures forall f :: f in Compact(SignedSlots(nfc, d)) ==> Readable(f)
    ensures Holds(nfc, d, ParseFields(raw).value)
  {
    SlotsNumbered(nfc, d);
    ReadSlots(SignedSlots(nfc, d), Compact(SignedSlots(nfc, d)));
    LookupAll(SignedSlots(nfc, d));
  }

  lemma {:induction false} CompactHas(slots: seq<Slot>, i: nat)
    requires i < |slots| && slots[i].Some?
    ensures slots[i].value in Compact(slots)
  {
    if i > 0 {
      CompactHas(slots[1..], i - 1);
    }
  }

  lemma CompactHasAll(slots: seq<Slot>)
    ensures forall i :: 0 <= i < |slots| && slots[i].Some? ==> slots[i].value in Compact(slots)
  {
    forall i | 0 <= i < |slots| && slots[i].Some? ensures slots[i].value in Compact(slots) {
      CompactHas(slots, i);
    }
  }

  lemma AcceptedNumber(n: nat, v: nat, slot: Slot)
    requires slot == VarintSlot(n, v) && v == NumberOf(slot) && (slot.Some? ==> Readable(slot.value))
    ensures WireNumber(v)
  {
    ToNumberFacts(0);
  }

  lemma AcceptedText(nfc: Nfc, utf8: Utf8, n: nat, s: string, slot: Slot)
    requires n in {3, 6, 7}
    requires slot == TextSlot(nfc, n, s) && s == TextOr(TextOf(utf8, slot))
    requires slot.Some? ==> Readable(slot.value) && FieldError(utf8, slot.value).None?
    ensures TextFits(nfc, s) && TextSurvives(nfc, utf8, s) && TextReceived(nfc, utf8, s) == s
  {}

  lemma AcceptedBlock(aa: Option<AntiAbuse>, slot: Slot)
    requires slot == AntiAbuseSlot(aa) && aa == BlockOf(slot) && (slot.Some? ==> Readable(slot.value))
    ensures aa.Some? ==> WireBlock(aa.value)
    ensures BlockReceived(aa) == aa
  {
    if aa.Some? {
      assert DecodeAntiAbuse(Emit(AntiAbuseSlots(aa.value))) == Ok(aa.value);
      DecodedBlock(aa.value);
    }
  }

  lemma DecodedBlock(aa: AntiAbuse)
    requires DecodeAntiAbuse(Emit(AntiAbuseSlots(aa))) == Ok(aa) && |Emit(AntiAbuseSlots(aa))| < TWO_TO_THE_53
    ensures WireBlock(aa) && Unsigned(aa.epoch) == aa.epoch
  {
    var s := AntiAbuseSlots(aa);
    DecodedSlots(aa, s, Compact(s));
    AcceptedBlockFields(aa, Compact(s));
  }

  lemma DecodedSlots(aa: AntiAbuse, s: seq<Slot>, fs: seq<Field>)
    requires Numbered(s, 1) && |s| == 4 && fs == Compact(s) && |EncodeFields(fs)| < TWO_TO_THE_53
    requires DecodeAntiAbuse(EncodeFields(fs)) == Ok(aa)
    ensures aa.epoch == NumberOf(s[2]) && forall f :: f in fs ==> Readable(f)
  {
    DecodedEpoch(EncodeFields(fs), aa);
    ReadSlots(s, fs);
    LookupCompact(s, 1, 3);
  }

  lemma DecodedEpoch(buf: seq<byte>, aa: AntiAbuse)
    requires DecodeAntiAbuse(buf) == Ok(aa)
    ensures ParseFields(buf).Ok? && aa.epoch == NumberOf(Lookup(ParseFields(buf).value, 3))
  {}

  lemma AcceptedBlockFields(aa: AntiAbuse, fs: seq<Field>)
    requires fs == Compact(AntiAbuseSlots(aa)) && |EncodeFields(fs)| < TWO_TO_THE_53
    requires aa.epoch == NumberOf(AntiAbuseSlots(aa)[2])
    requires forall f :: f in fs ==> Readable(f)
    ensures WireBlock(aa)
  {
    var s := AntiAbuseSlots(aa);
    PayloadsWithin(fs);
    CompactHasAll(s);
    AcceptedNumber(3, aa.epoch, s[2]);
    assert s[0].Some? ==> s[0].value in fs;
    assert s[1].Some? ==> s[1].value in fs;
    assert s[3].Some? ==> s[3].value in fs;
  }

  lemma {:induction false} FieldsErrorNone(utf8: Utf8, fs: seq<Field>)
    requires FieldsError(utf8, fs).None?
    ensures forall f :: f in fs ==> FieldError(utf8, f).None?
  {
    if fs != [] {
      FieldsErrorNone(utf8, fs[1..]);
      assert fs == [fs[0]] + fs[1..];
    }
  }

  /** An accepted input decodes to an envelope that decoding leaves as it is. */
  lemma AcceptedIsReceived(nfc: Nfc, utf8: Utf8, raw: seq<byte>, d: Envelope)
    requires |raw| < TWO_TO_THE_53
    requires DecodeSigned(nfc, utf8, raw) == Ok(d)
    ensures SignedBytes(nfc, d) == raw
    ensures WireRange(nfc, d) && TextsSurvive(nfc, utf8, d) && Received(nfc, utf8, d) == d
  {
    AcceptedFacts(nfc, utf8, raw, d);
    AcceptedFields(nfc, d, raw);
    var fs := ParseFields(raw).value;
    FieldsErrorNone(utf8, fs);
    CompactHasAll(SignedSlots(nfc, d));
    AcceptedNumbers(nfc, utf8, d, fs);
    AcceptedTexts(nfc, utf8, d, fs);
    AcceptedBuffers(nfc, utf8, d, fs);
    assert Lookup(fs, 12) == SignedSlots(nfc, d)[11] == AntiAbuseSlot(d.antiAbuse);
    AcceptedBlock(d.antiAbuse, AntiAbuseSlot(d.antiAbuse));
  }

  ghost predicate Accepted(nfc: Nfc, utf8: Utf8, d: Envelope, fs: seq<Field>)
  {
    && Holds(nfc, d, fs) && d == Rebuild(utf8, fs)
    && (forall i :: 0 <= i < 13 && SignedSlots(nfc, d)[i].Some? ==>
      Readable(SignedSlots(nfc, d)[i].value) && FieldError(utf8, SignedSlots(nfc, d)[i].value).None?)
  }

  lemma AcceptedNumbers(nfc: Nfc, utf8: Utf8, d: Envelope, fs: seq<Field>)
    requires Accepted(nfc, utf8, d, fs)
    ensures WireNumber(d.version) && WireNumber(d.plane) && WireNumber(d.keyAlg) && WireNumber(d.priority)
    ensures WireInteger(d.createdAtMs)
    ensures d.version >= 0 && d.plane >= 0 && d.keyAlg >= 0 && d.priority >= 0 && d.createdAtMs >= 0
  {
    var s := SignedSlots(nfc, d);
    assert Lookup(fs, 1) == s[0] && Lookup(fs, 2) == s[1];
    assert Lookup(fs, 5) == s[4] && Lookup(fs, 8) == s[7] && Lookup(fs, 10) == s[9];
    AcceptedNumber(1, d.version, s[0]);
    AcceptedNumber(2, d.plane, s[1]);
    AcceptedNumber(5, d.keyAlg, s[4]);
    AcceptedNumber(10, d.priority, s[9]);
  }

  lemma AcceptedTexts(nfc: Nfc, utf8: Utf8, d: Envelope, fs: seq<Field>)
    requires Accepted(nfc, utf8, d, fs)
    ensures TextFits(nfc, d.domain) && TextFits(nfc, d.parent) && TextFits(nfc, d.scope)
    ensures TextsSurvive(nfc, utf8, d)
    ensures TextReceived(nfc, utf8, d.domain) == d.domain && TextReceived(nfc, utf8, d.parent) == d.parent
    ensures TextReceived(nfc, utf8, d.scope) == d.scope
  {
    var s := SignedSlots(nfc, d);
    assert Lookup(fs, 3) == s[2] && Lookup(fs, 6) == s[5] && Lookup(fs, 7) == s[6];
    AcceptedText(nfc, utf8, 3, d.domain, s[2]);
    AcceptedText(nfc, utf8, 6, d.parent, s[5]);
    AcceptedText(nfc, utf8, 7, d.scope, s[6]);
  }

  lemma AcceptedBuffers(nfc: Nfc, utf8: Utf8, d: Envelope, fs: seq<Field>)
    requires Accepted(nfc, utf8, d, fs)
    ensures |d.authorKey| < TWO_TO_THE_53 && |d.nonce| < TWO_TO_THE_53 && |d.body| < TWO_TO_THE_53
    ensures |d.signature| < TWO_TO_THE_53
  {
    var s := SignedSlots(nfc, d);
    assert s[3] == BytesSlot(4, d.authorKey) && s[8] == BytesSlot(9, d.nonce);
    assert s[10] == BytesSlot(11, d.body) && s[12] == BytesSlot(13, d.signature);
  }

  /** The decoder accepts exactly the encodings of envelopes whose numbers and texts survive the wire. */
  lemma AcceptedExactly(nfc: Nfc, utf8: Utf8, raw: seq<byte>)
    requires |raw| < TWO_TO_THE_53
    ensures DecodeSigned(nfc, utf8, raw).Ok?
       <==> exists e :: WireRange(nfc, e) && TextsSurvive(nfc, utf8, e) && SignedBytes(nfc, e) == raw
  {
    if DecodeSigned(nfc, utf8, raw).Ok? {
      AcceptedIsReceived(nfc, utf8, raw, DecodeSigned(nfc, utf8, raw).value);
    }
    forall e | WireRange(nfc, e) && TextsSurvive(nfc, utf8, e) && SignedBytes(nfc, e) == raw
      ensures DecodeSigned(nfc, utf8, raw).Ok?
    {
      DecodeEncoded(nfc, utf8, e);
    }
  }

  /** Exactly one accepted form: inputs that decode to the same content and signature are one input. */
  lemma {:induction false} OneAcceptedForm(nfc: Nfc, utf8: Utf8, raw: seq<byte>, raw': seq<byte>, d: Envelope,
                                           d': Envelope)
    requires DecodeSigned(nfc, utf8, raw) == Ok(d) && DecodeSigned(nfc, utf8, raw') == Ok(d')
    requires SameContent(nfc, d, d') && d.signature == d'.signature
    ensures raw == raw'
  {
    SameContentSameSlots(nfc, d, d');
    AcceptedFacts(nfc, utf8, raw, d);
    AcceptedFacts(nfc, utf8, raw', d');
  }

  /** Numbers the Rust types could have produced; times count as their unsigned form. */
  predicate Narrow(d: Envelope)
  {
    && IsU32(d.version) && IsU32(d.plane) && IsU32(d.keyAlg) && IsU32(d.priority)
    && 0 <= d.createdAtMs < TWO_TO_THE_64
    && (d.antiAbuse.Some? ==> IsU32(d.antiAbuse.value.epoch))
  }

  /** The signed time a 64-bit receiver would read out of an unsigned one. */
  function Signed64(v: nat): int
  {
    if v < TWO_TO_THE_63 then v else v - TWO_TO_THE_64
  }

  lemma SameNumber(n: nat, v: int, w: int)
    requires VarintSlot(n, v) == VarintSlot(n, w) && v >= 0
    ensures v == Unsigned(w)
  {}

  lemma SameBlockNarrow(a: Option<AntiAbuse>, b: Option<AntiAbuse>)
    requires AntiAbuseSlot(a) == AntiAbuseSlot(b) && BlockReceived(a) == a
    requires b.Some? ==> IsU32(b.value.epoch)
    ensures a.Some? ==> IsU32(a.value.epoch)
  {
    if a.Some? {
      var s, t := AntiAbuseSlots(a.value), AntiAbuseSlots(b.value);
      EmitInjective(s, t, 1);
      assert s[2] == t[2];
      SameNumber(3, a.value.epoch, b.value.epoch);
    }
  }

  lemma SameSlotsNarrow(nfc: Nfc, utf8: Utf8, d: Envelope, e: Envelope)
    requires SignedSlots(nfc, d) == SignedSlots(nfc, e) && Received(nfc, utf8, d) == d && InRange(e)
    ensures Narrow(d)
  {
    var s, t := SignedSlots(nfc, d), SignedSlots(nfc, e);
    assert s[0] == t[0] && s[1] == t[1] && s[4] == t[4] && s[7] == t[7] && s[9] == t[9] && s[11] == t[11];
    SameNumber(1, d.version, e.version);
    SameNumber(2, d.plane, e.plane);
    SameNumber(5, d.keyAlg, e.keyAlg);
    SameNumber(8, d.createdAtMs, e.createdAtMs);
    SameNumber(10, d.priority, e.priority);
    SameBlockNarrow(d.antiAbuse, e.antiAbuse);
  }

  /** The envelope with the time a fixed-width encoder would have been given. */
  lemma NarrowIsProduced(nfc: Nfc, d: Envelope) returns (e: Envelope)
    requires Narrow(d)
    ensures InRange(e) && SignedBytes(nfc, e) == SignedBytes(nfc, d)
  {
    e := d.(createdAtMs := Signed64(d.createdAtMs));
    assert Unsigned(e.createdAtMs) == d.createdAtMs;
    assert Slots(nfc, e) == Slots(nfc, d);
  }

  lemma ProducedIsNarrow(nfc: Nfc, utf8: Utf8, d: Envelope, e: Envelope)
    requires Received(nfc, utf8, d) == d && InRange(e) && SignedBytes(nfc, e) == SignedBytes(nfc, d)
    ensures Narrow(d)
  {
    SlotsNumbered(nfc, d);
    SlotsNumbered(nfc, e);
    EmitInjective(SignedSlots(nfc, d), SignedSlots(nfc, e), 1);
    SameSlotsNarrow(nfc, utf8, d, e);
  }

  /**
   An accepted input is one a fixed-width encoder can produce exactly when its decoded numbers
   are in range; the decoder itself does not check the range.
   */
  lemma ProducibleExactly(nfc: Nfc, utf8: Utf8, raw: seq<byte>, d: Envelope)
    requires |raw| < TWO_TO_THE_53
    requires DecodeSigned(nfc, utf8, raw) == Ok(d)
    ensures Narrow(d) <==> exists e :: InRange(e) && SignedBytes(nfc, e) == raw
  {
    AcceptedIsReceived(nfc, utf8, raw, d);
    if Narrow(d) {
      var e := NarrowIsProduced(nfc, d);
    }
    if e :| InRange(e) && SignedBytes(nfc, e) == raw {
      ProducedIsNarrow(nfc, utf8, d, e);
    }
  }

  /** A time of 2^64, which no 64-bit encoder can write, is accepted. */
  lemma WideTimeAccepted(nfc: Nfc, utf8: Utf8, e: Envelope)
    requires e == Envelope(1, 1, "", [], 0, "", "", TWO_TO_THE_64, [], 0, [], None, [])
    ensures DecodeSigned(nfc, utf8, SignedBytes(nfc, e)) == Ok(e) && !Narrow(e)
  {
    ToNumberFacts(0);
    ToNumberFacts(1);
    assert Pow128(10) > TWO_TO_THE_64 by {
      assert Pow128(3) == 0x20_0000;
      assert Pow128(6) == 0x400_0000_0000;
    }
    VarintLength(TWO_TO_THE_64, 10);
    DecodeEncoded(nfc, utf8, e);
  }
}
