/** Why the decoder refuses an input: which error belongs to which fault, and which fault comes first. */
module Refusals {
  import opened Wrappers
  import opened Wire
  import opened Numbers
  import opened Canonical
  import opened Decode

  // ---------------------------------------------------------------- bytes

  /** No byte among the first `n` ends a varint. */
  predicate Unended(s: seq<byte>, n: nat)
  {
    forall i :: 0 <= i < n && i < |s| ==> s[i] >= 128
  }

  /** A varint that stops before it ends is truncated; one that has not ended after ten bytes is too long. */
  lemma {:induction false} VarintRefusedExactly(s: seq<byte>, fuel: nat)
    ensures ParseVarint(s, fuel) == Err(TruncatedVarint) <==> |s| <= fuel && Unended(s, fuel)
    ensures ParseVarint(s, fuel) == Err(VarintTooLong) <==> |s| > fuel && Unended(s, fuel)
    ensures ParseVarint(s, fuel).Err? <==> Unended(s, fuel)
    decreases fuel
  {
    if s != [] && fuel > 0 {
      var rest := s[1..];
      if s[0] >= 128 {
        VarintRefusedExactly(rest, fuel - 1);
        assert Unended(s, fuel) <==> Unended(rest, fuel - 1) by {
          if Unended(rest, fuel - 1) {
            forall i | 0 <= i < fuel && i < |s| ensures s[i] >= 128 {
              assert i > 0 ==> s[i] == rest[i - 1];
            }
          }
          if Unended(s, fuel) {
            forall i | 0 <= i < fuel - 1 && i < |rest| ensures rest[i] >= 128 {
              assert rest[i] == s[i + 1];
            }
          }
        }
      }
    }
  }

  /** A field with number 0, with another wire type than the two in use, or with a length past the end. */
  lemma FieldRefused(tag: nat, length: nat, rest: seq<byte>)
    requires tag < TWO_TO_THE_53 && length < TWO_TO_THE_53
    ensures tag < 8 ==> ParseFields(Varint(tag) + rest) == Err(FieldNumberZero)
    ensures tag >= 8 && tag % 8 != 0 && tag % 8 != 2 ==>
      ParseFields(Varint(tag) + rest) == Err(UnsupportedWireType(tag / 8, tag % 8))
    ensures tag >= 8 && tag % 8 == 2 && length > |rest| ==>
      ParseFields(Varint(tag) + (Varint(length) + rest)) == Err(LengthExceedsBuffer)
  {
    SmallVarint(tag);
    SmallVarint(length);
    ReadBackVarint(tag, rest, 10);
    ReadBackVarint(tag, Varint(length) + rest, 10);
    ReadBackVarint(length, rest, 10);
    ToNumberFacts(tag / 8);
    ToNumberFacts(length);
  }

  // ---------------------------------------------------------------- order

  predicate AscendingUpTo(fs: seq<Field>, n: nat)
  {
    forall j :: 0 < j < n && j < |fs| ==> fs[j - 1].num < fs[j].num
  }

  lemma {:induction false} FieldsNumbered(s: seq<byte>)
    requires ParseFields(s).Ok?
    ensures forall i :: 0 <= i < |ParseFields(s).value| ==> ParseFields(s).value[i].num > 0
    decreases |s|
  {
    if s != [] {
      FieldsNumbered(ParseField(s).value.1);
    }
  }

  lemma {:induction false} FirstOutOfOrder(fs: seq<Field>, previous: nat, i: nat)
    requires i < |fs| && previous < fs[0].num && i > 0
    requires AscendingUpTo(fs, i) && fs[i].num <= fs[i - 1].num
    ensures OrderError(fs, previous) ==
      Some(if fs[i].num == fs[i - 1].num then RepeatedField(fs[i].num) else FieldOutOfOrder(fs[i].num))
    decreases i
  {
    var rest := fs[1..];
    assert rest[i - 1] == fs[i];
    if i > 1 {
      assert fs[0].num < fs[1].num == rest[0].num;
      assert rest[i - 2] == fs[i - 1];
      assert AscendingUpTo(rest, i - 1) by {
        forall j | 0 < j < i - 1 && j < |rest| ensures rest[j - 1].num < rest[j].num {
          assert rest[j - 1] == fs[j] && rest[j] == fs[j + 1];
        }
      }
      FirstOutOfOrder(rest, fs[0].num, i - 1);
    }
  }

  lemma {:induction false} AllInOrder(fs: seq<Field>, previous: nat)
    requires fs != [] ==> previous < fs[0].num
    requires AscendingUpTo(fs, |fs|)
    ensures OrderError(fs, previous).None?
  {
    if |fs| > 1 {
      var rest := fs[1..];
      assert fs[0].num < fs[1].num == rest[0].num;
      forall j | 0 < j < |rest| ensures rest[j - 1].num < rest[j].num {
        assert rest[j - 1] == fs[j] && rest[j] == fs[j + 1];
      }
      AllInOrder(rest, fs[0].num);
    }
  }

  /** The first number that does not grow is the error: repeated, or out of order. */
  lemma OrderRefused(nfc: Nfc, utf8: Utf8, raw: seq<byte>, fs: seq<Field>, i: nat)
    requires ParseFields(raw) == Ok(fs) && 0 < i < |fs|
    requires AscendingUpTo(fs, i) && fs[i].num <= fs[i - 1].num
    ensures DecodeSigned(nfc, utf8, raw) ==
      Err(if fs[i].num == fs[i - 1].num then RepeatedField(fs[i].num) else FieldOutOfOrder(fs[i].num))
  {
    FieldsNumbered(raw);
    FirstOutOfOrder(fs, 0, i);
  }

  // ---------------------------------------------------------------- fields

  /** Nothing to complain of: a known number, text that decodes, a block that decodes. */
  predicate Faultless(utf8: Utf8, f: Field)
  {
    && f.num <= 13
    && (f.num in {3, 6, 7} ==> utf8(if f.LenField? then f.payload else []).Some?)
    && (f.num == 12 ==> DecodeAntiAbuse(if f.LenField? then f.payload else []).Ok?)
  }

  lemma FaultlessIs(utf8: Utf8, f: Field)
    requires f.num > 0
    ensures Faultless(utf8, f) <==> FieldError(utf8, f).None?
  {}

  lemma {:induction false} FirstFault(utf8: Utf8, fs: seq<Field>, i: nat)
    requires i < |fs| && (forall f :: f in fs ==> f.num > 0)
    requires (forall j :: 0 <= j < i ==> Faultless(utf8, fs[j])) && !Faultless(utf8, fs[i])
    ensures FieldsError(utf8, fs) == FieldError(utf8, fs[i])
    decreases i
  {
    FaultlessIs(utf8, fs[0]);
    if i > 0 {
      assert forall j :: 0 <= j < |fs| - 1 ==> fs[1..][j] == fs[j + 1];
      FirstFault(utf8, fs[1..], i - 1);
    }
  }

  /** In fields that ascend, the first faulty one is the error: unknown, or text that is not UTF-8. */
  lemma FaultRefused(nfc: Nfc, utf8: Utf8, raw: seq<byte>, fs: seq<Field>, i: nat)
    requires ParseFields(raw) == Ok(fs) && i < |fs| && AscendingUpTo(fs, |fs|)
    requires (forall j :: 0 <= j < i ==> Faultless(utf8, fs[j])) && !Faultless(utf8, fs[i])
    ensures fs[i].num > 13 ==> DecodeSigned(nfc, utf8, raw) == Err(UnknownField(fs[i].num))
    ensures fs[i].num in {3, 6, 7} ==> DecodeSigned(nfc, utf8, raw) == Err(InvalidUtf8(fs[i].num))
    ensures fs[i].num == 12 ==>
      DecodeSigned(nfc, utf8, raw)
        == Err(DecodeAntiAbuse(if fs[i].LenField? then fs[i].payload else []).error)
  {
    FieldsNumbered(raw);
    AllInOrder(fs, 0);
    FirstFault(utf8, fs, i);
    FaultlessIs(utf8, fs[i]);
  }

  lemma {:induction false} NoFault(utf8: Utf8, fs: seq<Field>)
    requires forall f :: f in fs ==> f.num > 0 && Faultless(utf8, f)
    ensures FieldsError(utf8, fs).None?
  {
    if fs != [] {
      FaultlessIs(utf8, fs[0]);
      NoFault(utf8, fs[1..]);
    }
  }

  /** What has no fault is accepted, or is another form of what it decodes to. */
  lemma OtherwiseOtherForm(nfc: Nfc, utf8: Utf8, raw: seq<byte>, fs: seq<Field>)
    requires ParseFields(raw) == Ok(fs) && AscendingUpTo(fs, |fs|)
    requires forall f :: f in fs ==> Faultless(utf8, f)
    ensures DecodeSigned(nfc, utf8, raw).Ok? || DecodeSigned(nfc, utf8, raw) == Err(NotCanonical)
  {
    FieldsNumbered(raw);
    AllInOrder(fs, 0);
    NoFault(utf8, fs);
  }

  // ---------------------------------------------------------------- the nested message

  lemma {:induction false} FirstUnknown(fs: seq<Field>, i: nat)
    requires i < |fs| && (forall f :: f in fs ==> f.num > 0)
    requires (forall j :: 0 <= j < i ==> fs[j].num <= 4) && fs[i].num > 4
    ensures UnknownBlockField(fs) == Some(UnknownField(fs[i].num))
    decreases i
  {
    if i > 0 {
      assert forall j :: 0 <= j < |fs| - 1 ==> fs[1..][j] == fs[j + 1];
      FirstUnknown(fs[1..], i - 1);
    }
  }

  /** In the anti-abuse block too the order is checked first, then that every number is known. */
  lemma BlockRefused(buf: seq<byte>, fs: seq<Field>, i: nat)
    requires ParseFields(buf) == Ok(fs) && i < |fs|
    ensures i > 0 && AscendingUpTo(fs, i) && fs[i].num <= fs[i - 1].num ==>
      DecodeAntiAbuse(buf) ==
        Err(if fs[i].num == fs[i - 1].num then RepeatedField(fs[i].num) else FieldOutOfOrder(fs[i].num))
    ensures AscendingUpTo(fs, |fs|) && fs[i].num > 4 && (forall j :: 0 <= j < i ==> fs[j].num <= 4) ==>
      DecodeAntiAbuse(buf) == Err(UnknownField(fs[i].num))
  {
    FieldsNumbered(buf);
    if i > 0 && AscendingUpTo(fs, i) && fs[i].num <= fs[i - 1].num {
      FirstOutOfOrder(fs, 0, i);
    }
    if AscendingUpTo(fs, |fs|) && fs[i].num > 4 && (forall j :: 0 <= j < i ==> fs[j].num <= 4) {
      AllInOrder(fs, 0);
      FirstUnknown(fs, i);
    }
  }
}
