/**
 Protobuf wire primitives: base-128 varints, tags and length-delimited payloads.

 `Varint`, `EncodeField` and `EncodeFields` are the format. `WriteVarint` and its siblings
 are the Rust writers over fixed-width integers, the `Py` ones are the Python writers over
 unbounded integers, and `ByteReader` is the bounds-checked TypeScript reader.

 On an unsigned `v`, `v & 0x7f` is written `v % 128`, `x | 0x80` for `x < 0x80` is written
 `x + 128`, and `v >> 7` is written `v / 128`.
 */
module Wire {
  import opened Wrappers
  import opened Numbers

  const TWO_TO_THE_32: int := 0x1_0000_0000
  const TWO_TO_THE_53: int := 0x20_0000_0000_0000
  const TWO_TO_THE_63: int := 0x8000_0000_0000_0000
  const TWO_TO_THE_64: int := 0x1_0000_0000_0000_0000

  type byte = b: int | 0 <= b < 256
  newtype u32 = x: int | 0 <= x < 0x1_0000_0000
  newtype u64 = x: int | 0 <= x < 0x1_0000_0000_0000_0000
  newtype i64 = x: int | -0x8000_0000_0000_0000 <= x < 0x8000_0000_0000_0000

  /** The growable byte buffer that every encoder appends to. */
  class ByteVec {
    var data: seq<byte>

    constructor ()
      ensures data == []
    {
      data := [];
    }

    method Push(b: byte)
      modifies this
      ensures data == old(data) + [b]
    {
      data := data + [b];
    }

    method Extend(s: seq<byte>)
      modifies this
      ensures data == old(data) + s
    {
      data := data + s;
    }
  }

  // ---------------------------------------------------------------- varints

  /** Seven bits a byte, least significant group first, high bit set on all but the last. */
  function Varint(v: nat): (bs: seq<byte>)
    ensures |bs| > 0
  {
    if v < 128 then [v] else [v % 128 + 128] + Varint(v / 128)
  }

  /** A negative number stands for its 64-bit two's complement. */
  function Unsigned(v: int): nat
  {
    if v < 0 then v % TWO_TO_THE_64 else v
  }

  function Pow128(n: nat): (p: nat)
    ensures p > 0
  {
    if n == 0 then 1 else 128 * Pow128(n - 1)
  }

  /** `v` takes at most `n` bytes exactly when it fits in `7 * n` bits. */
  lemma {:induction false} VarintLength(v: nat, n: nat)
    requires n > 0
    ensures |Varint(v)| <= n <==> v < Pow128(n)
  {
    if v < 128 {
      if n > 1 { assert Pow128(n - 1) > 0; }
    } else if n == 1 {
      assert Pow128(1) == 128 * Pow128(0);
    } else {
      VarintLength(v / 128, n - 1);
    }
  }

  /** No 64-bit value takes more than ten bytes, and every negative `i64` takes exactly ten. */
  lemma VarintBounds(v: int)
    requires -TWO_TO_THE_63 <= v < TWO_TO_THE_64
    ensures |Varint(Unsigned(v))| <= 10
    ensures v < 0 ==> |Varint(Unsigned(v))| == 10
  {
    assert Pow128(9) == TWO_TO_THE_63 && Pow128(10) == 128 * TWO_TO_THE_63 by {
      assert Pow128(3) == 0x20_0000;
      assert Pow128(6) == 0x400_0000_0000;
    }
    VarintLength(Unsigned(v), 10);
    VarintLength(Unsigned(v), 9);
  }

  datatype DecodeError =
    | TruncatedVarint
    | VarintTooLong
    | LengthExceedsBuffer
    | FieldNumberZero
    | UnsupportedWireType(field: nat, wireType: nat)
    | RepeatedField(number: nat)
    | FieldOutOfOrder(number: nat)
    | UnknownField(number: nat)
    | InvalidUtf8(number: nat)
    | NotCanonical

  /** What the reader makes of the bytes ahead of it: a value and the bytes after it. */
  function ParseVarint(s: seq<byte>, fuel: nat): (r: Result<(nat, seq<byte>), DecodeError>)
    ensures r.Ok? ==> |r.value.1| < |s| && r.value.1 == s[|s| - |r.value.1|..]
    decreases fuel
  {
    if s == [] then Err(TruncatedVarint)
    else if fuel == 0 then Err(VarintTooLong)
    else if s[0] < 128 then Ok((s[0], s[1..]))
    else match ParseVarint(s[1..], fuel - 1)
      case Err(e) => Err(e)
      case Ok((v, rest)) => Ok((s[0] - 128 + 128 * v, rest))
  }

  lemma ParseOneByte(b: byte, rest: seq<byte>, fuel: nat)
    requires fuel > 0
    ensures ParseVarint([b] + rest, fuel) ==
      if b < 128 then Ok((b, rest))
      else match ParseVarint(rest, fuel - 1)
        case Err(e) => Err(e)
        case Ok((v, after)) => Ok((b - 128 + 128 * v, after))
  {
    assert ([b] + rest)[0] == b && ([b] + rest)[1..] == rest;
  }

  /** A varint says where it ends: whatever follows it, reading gives it back. */
  lemma {:induction false} ReadBackVarint(v: nat, rest: seq<byte>, fuel: nat)
    requires |Varint(v)| <= fuel
    ensures ParseVarint(Varint(v) + rest, fuel) == Ok((v, rest))
    decreases v
  {
    if v < 128 {
      ParseOneByte(v, rest, fuel);
    } else {
      var low, more := v % 128 + 128, Varint(v / 128);
      ReadBackVarint(v / 128, rest, fuel - 1);
      Assoc([low], more, rest);
      ParseOneByte(low, more + rest, fuel);
    }
  }

  /** Of all byte strings read as `v`, `Varint(v)` is the only shortest one. */
  lemma {:induction false} VarintIsMinimal(s: seq<byte>, fuel: nat, v: nat)
    requires ParseVarint(s, fuel) == Ok((v, []))
    ensures |Varint(v)| <= |s|
    ensures |Varint(v)| == |s| ==> Varint(v) == s
    decreases fuel
  {
    if s[0] < 128 {
      assert s == [s[0]] + s[1..];
    } else {
      var w := ParseVarint(s[1..], fuel - 1).value.0;
      VarintIsMinimal(s[1..], fuel - 1, w);
      assert s == [s[0]] + s[1..];
      if w > 0 {
        assert v / 128 == w && v % 128 + 128 == s[0];
      }
    }
  }

  /** No varint is a prefix of another, so what precedes equal bytes is equal. */
  lemma {:induction false} VarintPrefixFree(v: nat, w: nat, a: seq<byte>, b: seq<byte>)
    requires Varint(v) + a == Varint(w) + b
    ensures v == w && a == b
  {
    var fuel := |Varint(v)| + |Varint(w)|;
    ReadBackVarint(v, a, fuel);
    ReadBackVarint(w, b, fuel);
  }

  // ---------------------------------------------------------------- fields

  datatype Field =
    | VarintField(num: nat, value: nat)
    | LenField(num: nat, payload: seq<byte>)

  const WIRE_VARINT := 0
  const WIRE_LEN := 2

  function Tag(f: Field): nat
  {
    f.num * 8 + if f.VarintField? then WIRE_VARINT else WIRE_LEN
  }

  function Content(f: Field): seq<byte>
  {
    match f
    case VarintField(_, value) => Varint(value)
    case LenField(_, payload) => Varint(|payload|) + payload
  }

  function EncodeField(f: Field): (bs: seq<byte>)
    ensures |bs| >= 2
  {
    Varint(Tag(f)) + Content(f)
  }

  function EncodeFields(fs: seq<Field>): seq<byte>
  {
    if fs == [] then [] else EncodeField(fs[0]) + EncodeFields(fs[1..])
  }

  function Concat<T>(f: T -> seq<byte>, items: seq<T>): seq<byte>
  {
    if items == [] then [] else f(items[0]) + Concat(f, items[1..])
  }

  lemma {:induction false} ConcatAppend<T>(f: T -> seq<byte>, a: seq<T>, b: seq<T>)
    ensures Concat(f, a + b) == Concat(f, a) + Concat(f, b)
  {
    if a == [] {
      assert a + b == b;
    } else {
      ConcatAppend(f, a[1..], b);
      assert (a + b)[0] == a[0] && (a + b)[1..] == a[1..] + b;
      Assoc(f(a[0]), Concat(f, a[1..]), Concat(f, b));
    }
  }

  lemma {:induction false} EncodeFieldsIsConcat(fs: seq<Field>)
    ensures EncodeFields(fs) == Concat(EncodeField, fs)
  {
    if fs != [] {
      EncodeFieldsIsConcat(fs[1..]);
    }
  }

  lemma EncodeFieldsAppend(a: seq<Field>, b: seq<Field>)
    ensures EncodeFields(a + b) == EncodeFields(a) + EncodeFields(b)
  {
    EncodeFieldsIsConcat(a);
    EncodeFieldsIsConcat(b);
    EncodeFieldsIsConcat(a + b);
    ConcatAppend(EncodeField, a, b);
  }

  lemma Assoc<T>(a: seq<T>, b: seq<T>, c: seq<T>)
    ensures a + b + c == a + (b + c)
  {}

  lemma EqualLengthPrefix<T>(a: seq<T>, b: seq<T>, c: seq<T>, d: seq<T>)
    requires a + c == b + d && |a| == |b|
    ensures a == b && c == d
  {
    assert a == (a + c)[..|a|] && b == (b + d)[..|a|];
    assert c == (a + c)[|a|..] && d == (b + d)[|a|..];
  }

  /** Equal bytes start with equal fields, whatever follows. */
  lemma FieldPrefixFree(f: Field, g: Field, a: seq<byte>, b: seq<byte>)
    requires EncodeField(f) + a == EncodeField(g) + b
    ensures f == g && a == b
  {
    EncodeFieldThen(f, a);
    EncodeFieldThen(g, b);
    VarintPrefixFree(Tag(f), Tag(g), Content(f) + a, Content(g) + b);
    if f.VarintField? {
      VarintPrefixFree(f.value, g.value, a, b);
    } else {
      Assoc(Varint(|f.payload|), f.payload, a);
      Assoc(Varint(|g.payload|), g.payload, b);
      VarintPrefixFree(|f.payload|, |g.payload|, f.payload + a, g.payload + b);
      EqualLengthPrefix(f.payload, g.payload, a, b);
    }
  }

  lemma EncodeFieldThen(f: Field, a: seq<byte>)
    ensures EncodeField(f) + a == Varint(Tag(f)) + (Content(f) + a)
  {
    Assoc(Varint(Tag(f)), Content(f), a);
  }

  /** A byte string is the encoding of at most one list of fields. */
  lemma {:induction false} EncodeFieldsInjective(fs: seq<Field>, gs: seq<Field>)
    requires EncodeFields(fs) == EncodeFields(gs)
    ensures fs == gs
  {
    if fs != [] && gs != [] {
      FieldPrefixFree(fs[0], gs[0], EncodeFields(fs[1..]), EncodeFields(gs[1..]));
      EncodeFieldsInjective(fs[1..], gs[1..]);
      assert fs == [fs[0]] + fs[1..] && gs == [gs[0]] + gs[1..];
    }
  }

  // ---------------------------------------------------------------- Rust writers

  method WriteVarint(out: ByteVec, value: u64)
    modifies out
    ensures out.data == old(out.data) + Varint(value as nat)
  {
    var v := value;
    while v >= 0x80
      invariant out.data + Varint(v as nat) == old(out.data) + Varint(value as nat)
      decreases v
    {
      ghost var before := out.data;
      out.Push((v % 128) as int + 128);
      assert (v as nat) / 128 == (v / 128) as nat;
      assert before + Varint(v as nat) == out.data + Varint((v / 128) as nat);
      v := v / 128;
    }
    out.Push(v as int);
  }

  /** `a | b`, bit by bit from the low end. */
  function Or(a: nat, b: nat): nat
  {
    if a == 0 && b == 0 then 0 else 2 * Or(a / 2, b / 2) + (if a % 2 == 1 || b % 2 == 1 then 1 else 0)
  }

  lemma {:induction false} OrBelow(a: nat, b: nat, n: nat)
    requires a < Pow2(n) && b < Pow2(n)
    ensures Or(a, b) < Pow2(n)
  {
    if n > 0 {
      OrBelow(a / 2, b / 2, n - 1);
    }
  }

  lemma OrDouble(a: nat, b: nat)
    ensures Or(2 * a, b) == 2 * Or(a, b / 2) + b % 2
  {
    assert (2 * a) / 2 == a;
  }

  /** Where one number is a multiple of eight and the other below eight, `|` adds. */
  lemma OrAdds(k: nat, b: nat)
    requires b < 8
    ensures Or(8 * k, b) == 8 * k + b
  {
    OrNothing(k);
    OrDouble(k, b / 4);
    OrDouble(2 * k, b / 2);
    OrDouble(4 * k, b);
    assert b / 4 / 2 == 0 && b / 2 / 2 == b / 4;
  }

  lemma {:induction false} OrNothing(a: nat)
    ensures Or(a, 0) == a
  {
    if a > 0 {
      OrNothing(a / 2);
    }
  }

  /** What a field number of 32 bits comes to in a tag: its upper three bits are shifted out. */
  function TagNumber(fieldNumber: u32): (n: nat)
    ensures n == fieldNumber as nat % 0x2000_0000
  {
    if fieldNumber < 0x2000_0000 then fieldNumber as nat else fieldNumber as nat % 0x2000_0000
  }

  lemma Pow2Of32()
    ensures Pow2(32) == TWO_TO_THE_32
  {
    assert Pow2(8) == 256;
    Pow2Add(8, 8);
    Pow2Add(16, 16);
  }

  method WriteTag(out: ByteVec, fieldNumber: u32, wireType: u32)
    modifies out
    ensures out.data == old(out.data) + Varint(Or(TagNumber(fieldNumber) * 8, wireType as nat))
    ensures wireType < 8 ==> out.data == old(out.data) + Varint(TagNumber(fieldNumber) * 8 + wireType as nat)
  {
    Pow2Of32();
    var shifted := (fieldNumber as nat * 8) % TWO_TO_THE_32;
    assert shifted == TagNumber(fieldNumber) * 8;
    OrBelow(shifted, wireType as nat, 32);
    if wireType < 8 {
      OrAdds(TagNumber(fieldNumber), wireType as nat);
    }
    var tag := Or(shifted, wireType as nat) as u32;
    WriteVarint(out, tag as u64);
  }

  lemma VarintFieldBytes(before: seq<byte>, num: nat, value: nat)
    ensures before + Varint(num * 8) + Varint(value) == before + EncodeField(VarintField(num, value))
  {
    Assoc(before, Varint(num * 8), Varint(value));
  }

  lemma LenFieldBytes(before: seq<byte>, num: nat, payload: seq<byte>)
    ensures before + Varint(num * 8 + 2) + Varint(|payload|) + payload == before + EncodeField(LenField(num, payload))
  {
    Assoc(before, Varint(num * 8 + 2), Varint(|payload|));
    Assoc(before, Varint(num * 8 + 2) + Varint(|payload|), payload);
    Assoc(Varint(num * 8 + 2), Varint(|payload|), payload);
  }

  method WriteVarintField(out: ByteVec, fieldNumber: u32, value: u64)
    modifies out
    ensures out.data == old(out.data) + EncodeField(VarintField(TagNumber(fieldNumber), value as nat))
  {
    ghost var before, n := out.data, TagNumber(fieldNumber);
    WriteTag(out, fieldNumber, 0);
    assert out.data == before + Varint(n * 8);
    WriteVarint(out, value);
    VarintFieldBytes(before, n, value as nat);
  }

  /** `payload.len() as u64` is exact because a Rust slice is shorter than 2^63 bytes. */
  method WriteLenDelimited(out: ByteVec, fieldNumber: u32, payload: seq<byte>)
    requires |payload| < TWO_TO_THE_63
    modifies out
    ensures out.data == old(out.data) + EncodeField(LenField(TagNumber(fieldNumber), payload))
  {
    ghost var before, n := out.data, TagNumber(fieldNumber);
    WriteTag(out, fieldNumber, 2);
    assert out.data == before + Varint(n * 8 + 2);
    WriteVarint(out, |payload| as u64);
    assert out.data == before + Varint(n * 8 + 2) + Varint(|payload|);
    out.Extend(payload);
    LenFieldBytes(before, n, payload);
  }

  /** The cast `created_at_ms as u64`. */
  function AsU64(v: i64): (u: u64)
    ensures u as int == Unsigned(v as int)
  {
    if v < 0 then (v as int + TWO_TO_THE_64) as u64 else v as u64
  }

  // ---------------------------------------------------------------- Python writers

  method PyWriteVarint(out: ByteVec, value: int)
    modifies out
    ensures out.data == old(out.data) + Varint(Unsigned(value))
  {
    var v: nat := if value < 0 then value % TWO_TO_THE_64 else value;
    while v >= 0x80
      invariant out.data + Varint(v) == old(out.data) + Varint(Unsigned(value))
    {
      ghost var before := out.data;
      out.Push(v % 128 + 128);
      assert before + Varint(v) == out.data + Varint(v / 128);
      v := v / 128;
    }
    out.Push(v);
  }

  method PyWriteVarintField(out: ByteVec, fieldNumber: nat, value: int)
    modifies out
    ensures out.data == old(out.data) + EncodeField(VarintField(fieldNumber, Unsigned(value)))
  {
    VarintFieldBytes(out.data, fieldNumber, Unsigned(value));
    PyWriteVarint(out, fieldNumber * 8 + WIRE_VARINT);
    PyWriteVarint(out, value);
  }

  method PyWriteLenDelimited(out: ByteVec, fieldNumber: nat, payload: seq<byte>)
    modifies out
    ensures out.data == old(out.data) + EncodeField(LenField(fieldNumber, payload))
  {
    PyWriteVarint(out, fieldNumber * 8 + WIRE_LEN);
    PyWriteVarint(out, |payload|);
    out.Extend(payload);
    Assoc(old(out.data), Varint(fieldNumber * 8 + 2), Varint(|payload|));
    Assoc(old(out.data), Varint(fieldNumber * 8 + 2) + Varint(|payload|), payload);
    Assoc(Varint(fieldNumber * 8 + 2), Varint(|payload|), payload);
  }
}
