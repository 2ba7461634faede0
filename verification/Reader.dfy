/** The decoder as the program runs it: a cursor over a byte buffer, loops and early exits. */
module Reader {
  import opened Wrappers
  import opened Wire
  import opened Canonical
  import opened Decode

  class ByteReader {
    const buf: seq<byte>
    var pos: nat

    constructor (buf: seq<byte>)
      ensures Valid() && this.buf == buf && Ahead() == buf
    {
      this.buf := buf;
      pos := 0;
    }

    ghost predicate Valid()
      reads this
    {
      pos <= |buf|
    }

    ghost function Ahead(): seq<byte>
      requires Valid()
      reads this
    {
      buf[pos..]
    }

    /** Reads what `ParseVarint` reads with a budget of ten bytes, and moves past it. */
    method Varint() returns (r: Result<nat, DecodeError>)
      requires Valid()
      modifies this
      ensures Valid()
      ensures match ParseVarint(old(Ahead()), 10)
        case Ok((v, rest)) => r == Ok(v) && Ahead() == rest
        case Err(e) => r == Err(e)
    {
      var result: nat, scale: nat, bytesRead: nat := 0, 1, 0;
      ghost var whole := VarintLoop(Ahead(), 10, 0, 1);
      VarintLoopIs(Ahead(), 10, 0, 1);
      while true
        invariant Valid() && bytesRead <= 10
        invariant whole == VarintLoop(Ahead(), 10 - bytesRead, result, scale)
        decreases |buf| - pos
      {
        if pos >= |buf| {
          return Err(TruncatedVarint);
        }
        var b := buf[pos];
        assert Ahead()[0] == b && Ahead()[1..] == buf[pos + 1..];
        pos := pos + 1;
        bytesRead := bytesRead + 1;
        if bytesRead > 10 {
          return Err(VarintTooLong);
        }
        result := Accumulate(result, b, scale);
        if b < 128 {
          return Ok(result);
        }
        scale := scale * 128;
      }
    }

    method Take(n: nat) returns (r: Result<seq<byte>, DecodeError>)
      requires Valid()
      modifies this
      ensures Valid()
      ensures if |old(Ahead())| < n then r == Err(LengthExceedsBuffer)
        else r == Ok(old(Ahead())[..n]) && Ahead() == old(Ahead())[n..]
    {
      if pos + n > |buf| {
        return Err(LengthExceedsBuffer);
      }
      assert Ahead()[..n] == buf[pos..pos + n] && Ahead()[n..] == buf[pos + n..];
      r := Ok(buf[pos..pos + n]);
      pos := pos + n;
    }
  }

  /** The reading of a whole varint, given what its first bytes came to. */
  ghost function Continue(result: nat, scale: nat, rest: Result<(nat, seq<byte>), DecodeError>)
    : Result<(nat, seq<byte>), DecodeError>
  {
    match rest
    case Ok((v, after)) => Ok((result + scale * v, after))
    case Err(e) => Err(e)
  }

  /** `result |= (b & 0x7f) << shift`, where `scale` is the power of two shifted by. */
  function Accumulate(result: nat, b: byte, scale: nat): nat
  {
    result + (b % 128) * scale
  }

  lemma ScaleDigit(scale: nat, d: nat, v: nat)
    ensures scale * (d + 128 * v) == d * scale + scale * 128 * v
  {
    assert scale * (128 * v) == scale * 128 * v;
  }

  lemma AccumulateHigh(result: nat, b: byte, scale: nat, v: nat)
    requires b >= 128
    ensures result + scale * (b - 128 + 128 * v) == Accumulate(result, b, scale) + scale * 128 * v
  {
    ScaleDigit(scale, b - 128, v);
    assert b % 128 == b - 128;
  }

  lemma ContinueStep(result: nat, scale: nat, s: seq<byte>, fuel: nat)
    requires s != []
    ensures Continue(result, scale, ParseVarint(s, fuel)) ==
      if fuel == 0 then Err(VarintTooLong)
      else if s[0] < 128 then Ok((Accumulate(result, s[0], scale), s[1..]))
      else Continue(Accumulate(result, s[0], scale), scale * 128, ParseVarint(s[1..], fuel - 1))
  {
    if fuel == 0 {
    } else if s[0] < 128 {
      assert s[0] % 128 == s[0] && scale * s[0] == s[0] * scale;
    } else {
      var rest := ParseVarint(s[1..], fuel - 1);
      if rest.Ok? {
        AccumulateHigh(result, s[0], scale, rest.value.0);
      }
    }
  }

  /** The loop of the cursor, as a function of what it has come to so far. */
  ghost function VarintLoop(s: seq<byte>, fuel: nat, result: nat, scale: nat): Result<(nat, seq<byte>), DecodeError>
    decreases |s|
  {
    if s == [] then Err(TruncatedVarint)
    else if fuel == 0 then Err(VarintTooLong)
    else if s[0] < 128 then Ok((Accumulate(result, s[0], scale), s[1..]))
    else VarintLoop(s[1..], fuel - 1, Accumulate(result, s[0], scale), scale * 128)
  }

  lemma {:induction false} VarintLoopContinues(s: seq<byte>, fuel: nat, result: nat, scale: nat)
    ensures VarintLoop(s, fuel, result, scale) == Continue(result, scale, ParseVarint(s, fuel))
    decreases |s|
  {
    if s != [] {
      ContinueStep(result, scale, s, fuel);
      if s[0] >= 128 && fuel > 0 {
        VarintLoopContinues(s[1..], fuel - 1, Accumulate(result, s[0], scale), scale * 128);
      }
    }
  }

  lemma VarintLoopIs(s: seq<byte>, fuel: nat, result: nat, scale: nat)
    requires result == 0 && scale == 1
    ensures VarintLoop(s, fuel, result, scale) == ParseVarint(s, fuel)
  {
    VarintLoopContinues(s, fuel, result, scale);
  }

  method ReadField(reader: ByteReader) returns (r: Result<Field, DecodeError>)
    requires reader.Valid()
    modifies reader
    ensures reader.Valid()
    ensures match ParseField(old(reader.Ahead()))
      case Ok((f, rest)) => r == Ok(f) && reader.Ahead() == rest
      case Err(e) => r == Err(e)
  {
    var tag := reader.Varint();
    if tag.Err? {
      return Err(tag.error);
    }
    var num, wireType := ToNumber(tag.value / 8), tag.value % 8;
    if num == 0 {
      return Err(FieldNumberZero);
    }
    if wireType == WIRE_VARINT {
      var value := reader.Varint();
      return if value.Ok? then Ok(VarintField(num, value.value)) else Err(value.error);
    } else if wireType == WIRE_LEN {
      var length := reader.Varint();
      if length.Err? {
        return Err(length.error);
      }
      var bytes := reader.Take(ToNumber(length.value));
      return if bytes.Ok? then Ok(LenField(num, bytes.value)) else Err(bytes.error);
    } else {
      return Err(UnsupportedWireType(num, wireType));
    }
  }

  /** One turn of the field loop, after these fields. */
  method ReadNext(reader: ByteReader, ghost fields: seq<Field>) returns (r: Result<Field, DecodeError>)
    requires reader.Valid() && reader.Ahead() != []
    modifies reader
    ensures reader.Valid() && (r.Ok? ==> reader.pos > old(reader.pos))
    ensures Prepend(fields, ParseFields(old(reader.Ahead()))) ==
      if r.Err? then Err(r.error) else Prepend(fields + [r.value], ParseFields(reader.Ahead()))
  {
    ghost var ahead := reader.Ahead();
    r := ReadField(reader);
    if r.Err? {
      PrependError(fields, ahead);
    } else {
      PrependStep(fields, ahead, r.value, reader.Ahead());
    }
  }

  /** What the loop has come to: these fields, and whatever the rest of the buffer holds. */
  ghost predicate ReadSoFar(whole: Result<seq<Field>, DecodeError>, fields: seq<Field>, ahead: seq<byte>)
  {
    whole == Prepend(fields, ParseFields(ahead))
  }

  lemma NothingRead(buf: seq<byte>)
    ensures ReadSoFar(ParseFields(buf), [], buf)
  {
    PrependNothing(ParseFields(buf));
  }

  lemma AllRead(whole: Result<seq<Field>, DecodeError>, fields: seq<Field>, ahead: seq<byte>)
    requires ReadSoFar(whole, fields, ahead) && ahead == []
    ensures whole == Ok(fields)
  {
    PrependLast(fields, ahead);
  }

  /** The field loop over the rest of a buffer. */
  method ReadRest(reader: ByteReader, ghost whole: Result<seq<Field>, DecodeError>)
    returns (r: Result<seq<Field>, DecodeError>)
    requires reader.Valid() && ReadSoFar(whole, [], reader.Ahead())
    modifies reader
    ensures r == whole
  {
    var fields: seq<Field> := [];
    while reader.pos < |reader.buf|
      invariant reader.Valid()
      invariant ReadSoFar(whole, fields, reader.Ahead())
      decreases |reader.buf| - reader.pos
    {
      var field := ReadNext(reader, fields);
      if field.Err? {
        return Err(field.error);
      }
      fields := fields + [field.value];
    }
    AllRead(whole, fields, reader.Ahead());
    r := Ok(fields);
  }

  method ReadFields(buf: seq<byte>) returns (r: Result<seq<Field>, DecodeError>)
    ensures r == ParseFields(buf)
  {
    var reader := new ByteReader(buf);
    NothingRead(buf);
    r := ReadRest(reader, ParseFields(buf));
  }

  ghost function Prepend(fs: seq<Field>, rest: Result<seq<Field>, DecodeError>): Result<seq<Field>, DecodeError>
  {
    match rest
    case Ok(gs) => Ok(fs + gs)
    case Err(e) => Err(e)
  }

  lemma PrependError(fs: seq<Field>, s: seq<byte>)
    requires s != [] && ParseField(s).Err?
    ensures Prepend(fs, ParseFields(s)) == Err(ParseField(s).error)
  {}

  lemma PrependLast(fs: seq<Field>, s: seq<byte>)
    requires s == []
    ensures Prepend(fs, ParseFields(s)) == Ok(fs)
  {
    assert fs + [] == fs;
  }

  lemma PrependStep(fs: seq<Field>, s: seq<byte>, f: Field, rest: seq<byte>)
    requires s != [] && ParseField(s) == Ok((f, rest))
    ensures Prepend(fs, ParseFields(s)) == Prepend(fs + [f], ParseFields(rest))
  {
    if ParseFields(rest).Ok? {
      Assoc(fs, [f], ParseFields(rest).value);
    }
  }

  lemma PrependNothing(r: Result<seq<Field>, DecodeError>)
    ensures Prepend([], r) == r
  {
    if r.Ok? {
      assert [] + r.value == r.value;
    }
  }

  method AssertAscendingUnique(fs: seq<Field>) returns (r: Option<DecodeError>)
    ensures r == OrderError(fs, 0)
  {
    var previous := 0;
    for i := 0 to |fs|
      invariant OrderError(fs, 0) == OrderError(fs[i..], previous)
    {
      var f := fs[i];
      if f.num == previous {
        return Some(RepeatedField(f.num));
      }
      if f.num < previous {
        return Some(FieldOutOfOrder(f.num));
      }
      previous := f.num;
    }
    r := None;
  }

  const BLANK := Envelope(0, 0, "", [], 0, "", "", 0, [], 0, [], None, [])

  /** One turn of the switch: store a field where it belongs. */
  function Store(utf8: Utf8, base: Envelope, f: Field): Envelope
    requires 1 <= f.num <= 13
  {
    match f.num
    case 1 => base.(version := NumberOf(Some(f)))
    case 2 => base.(plane := NumberOf(Some(f)))
    case 3 => base.(domain := TextOr(TextOf(utf8, Some(f))))
    case 4 => base.(authorKey := BytesOf(Some(f)))
    case 5 => base.(keyAlg := NumberOf(Some(f)))
    case 6 => base.(parent := TextOr(TextOf(utf8, Some(f))))
    case 7 => base.(scope := TextOr(TextOf(utf8, Some(f))))
    case 8 => base.(createdAtMs := BigIntOf(Some(f)))
    case 9 => base.(nonce := BytesOf(Some(f)))
    case 10 => base.(priority := NumberOf(Some(f)))
    case 11 => base.(body := BytesOf(Some(f)))
    case 12 => base.(antiAbuse := BlockOf(Some(f)))
    case 13 => base.(signature := BytesOf(Some(f)))
  }

  lemma LookupStep(fs: seq<Field>, f: Field, n: nat)
    ensures Lookup(fs + [f], n) == if f.num == n then Some(f) else Lookup(fs, n)
  {
    assert (fs + [f])[..|fs|] == fs;
  }

  /** The accumulating loop finds what looking each number up in the whole list finds. */
  lemma RebuildStep(utf8: Utf8, fs: seq<Field>, f: Field)
    requires 1 <= f.num <= 13
    ensures Rebuild(utf8, fs + [f]) == Store(utf8, Rebuild(utf8, fs), f)
  {
    forall n: nat ensures Lookup(fs + [f], n) == if f.num == n then Some(f) else Lookup(fs, n) {
      LookupStep(fs, f, n);
    }
  }

  /** The switch over all fields. */
  method Assemble(utf8: Utf8, fs: seq<Field>) returns (r: Result<Envelope, DecodeError>)
    ensures r == if FieldsError(utf8, fs).Some? then Err(FieldsError(utf8, fs).value) else Ok(Rebuild(utf8, fs))
  {
    ToNumberFacts(0);
    var base := BLANK;
    for i := 0 to |fs|
      invariant base == Rebuild(utf8, fs[..i])
      invariant FieldsError(utf8, fs) == FieldsError(utf8, fs[i..])
    {
      if FieldError(utf8, fs[i]).Some? {
        return Err(FieldError(utf8, fs[i]).value);
      }
      assert fs[..i + 1] == fs[..i] + [fs[i]] && fs[i..][1..] == fs[i + 1..];
      RebuildStep(utf8, fs[..i], fs[i]);
      base := Store(utf8, base, fs[i]);
    }
    assert fs[..|fs|] == fs;
    r := Ok(base);
  }

  method DecodeSignedEnvelope(nfc: Nfc, utf8: Utf8, raw: seq<byte>) returns (r: Result<Envelope, DecodeError>)
    ensures r == DecodeSigned(nfc, utf8, raw)
  {
    var fields := ReadFields(raw);
    if fields.Err? {
      return Err(fields.error);
    }
    var order := AssertAscendingUnique(fields.value);
    if order.Some? {
      return Err(order.value);
    }
    var base := Assemble(utf8, fields.value);
    if base.Err? {
      return Err(base.error);
    }
    if SignedBytes(nfc, base.value) != raw {
      return Err(NotCanonical);
    }
    r := Ok(base.value);
  }
}
