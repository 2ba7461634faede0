/** Base32 identifiers: RFC 4648 section 6, lowercase, without padding. */
module Base32 {
  import opened Wrappers
  import opened Wire
  import opened Numbers
  import opened BitCodec

  const ALPHABET := "abcdefghijklmnopqrstuvwxyz234567"

  // ---------------------------------------------------------------- the text of a byte string

  /** `a` to `z` stand for 0 to 25 and `2` to `7` for 26 to 31. */
  function Letter(d: nat): char
    requires d < 32
  {
    if d < 26 then ('a' as int + d) as char else ('2' as int + d - 26) as char
  }

  lemma AlphabetIsLetters(d: nat)
    requires d < 32
    ensures ALPHABET[d] == Letter(d)
  {}

  lemma Pow2Five()
    ensures Pow2(5) == 32 && Pow2(8) == 256
  {
    assert Pow2(2) == 4;
  }

  function Letters(digits: seq<nat>): string
    requires Digits(digits, 5)
  {
    if digits == [] then ""
    else
      Pow2Five();
      DigitsTail(digits, 5);
      [Letter(digits[0])] + Letters(digits[1..])
  }

  lemma BytesAreDigits(data: seq<byte>)
    ensures Digits(data, 8)
  {
    Pow2Five();
  }

  function Encode(data: seq<byte>): string
  {
    PackDigits(Unpack(data, 8), 5);
    Letters(Pack(Unpack(data, 8), 5))
  }

  function Lower(c: char): char
  {
    if 'A' <= c <= 'Z' then (c as int + 32) as char else c
  }

  function Upper(c: char): char
  {
    if 'a' <= c <= 'z' then (c as int - 32) as char else c
  }

  function LowerAll(s: string): string
  {
    if s == "" then "" else [Lower(s[0])] + LowerAll(s[1..])
  }

  function UpperAll(s: string): string
  {
    if s == "" then "" else [Upper(s[0])] + UpperAll(s[1..])
  }

  function DigitOf(c: char): Option<nat>
  {
    if 'a' <= Lower(c) <= 'z' then Some(Lower(c) as int - 'a' as int)
    else if '2' <= c <= '7' then Some(c as int - '2' as int + 26)
    else None
  }

  function DigitsOf(s: string): Option<seq<nat>>
  {
    if s == "" then Some([])
    else match (DigitOf(s[0]), DigitsOf(s[1..]))
      case (Some(d), Some(ds)) => Some([d] + ds)
      case _ => None
  }

  /** The whole bytes in the text; bits left over at the end are dropped unread. */
  function Decode(s: string): Option<seq<byte>>
  {
    match DigitsOf(s)
    case None => None
    case Some(digits) => Some(WholeBytes(Unpack(digits, 5)))
  }

  function WholeBytes(bits: seq<bool>): (bytes: seq<byte>)
    ensures bytes == Whole(bits, 8)
  {
    Pow2Five();
    WholeDigits(bits, 8);
    var d := Whole(bits, 8);
    assert forall i :: 0 <= i < |d| ==> d[i] in d;
    d
  }

  // ---------------------------------------------------------------- round trip

  lemma {:induction false} LettersDigits(digits: seq<nat>, s: string)
    requires Digits(digits, 5) && LowerAll(s) == Letters(digits)
    ensures DigitsOf(s) == Some(digits)
  {
    if digits != [] {
      Pow2Five();
      DigitsTail(digits, 5);
      assert Letters(digits)[0] == Letter(digits[0]) && Letters(digits)[1..] == Letters(digits[1..]);
      assert LowerAll(s)[0] == Lower(s[0]) && LowerAll(s)[1..] == LowerAll(s[1..]);
      LettersDigits(digits[1..], s[1..]);
      assert digits == [digits[0]] + digits[1..];
    }
  }

  /** Decoding gives the bytes back, whatever case the text was transcribed in. */
  lemma RoundTrip(data: seq<byte>, s: string)
    requires LowerAll(s) == Encode(data)
    ensures Decode(s) == Some(data)
  {
    PackDigits(Unpack(data, 8), 5);
    LettersDigits(Pack(Unpack(data, 8), 5), s);
    BytesAreDigits(data);
    RegroupRoundTrip(data, 8, 5);
  }

  lemma {:induction false} LettersAreLower(digits: seq<nat>)
    requires Digits(digits, 5)
    ensures |Letters(digits)| == |digits|
    ensures LowerAll(Letters(digits)) == Letters(digits)
    ensures LowerAll(UpperAll(Letters(digits))) == Letters(digits)
  {
    if digits != [] {
      Pow2Five();
      DigitsTail(digits, 5);
      LettersAreLower(digits[1..]);
      var s := Letters(digits);
      assert s[1..] == Letters(digits[1..]);
      assert UpperAll(s)[1..] == UpperAll(s[1..]);
    }
  }

  /** The text as written and the text upper-cased both decode to the bytes. */
  lemma EncodeDecode(data: seq<byte>)
    ensures Decode(Encode(data)) == Some(data)
    ensures Decode(UpperAll(Encode(data))) == Some(data)
    ensures |Encode(data)| == CeilDiv(8 * |data|, 5)
  {
    var bits := Unpack(data, 8);
    PackDigits(bits, 5);
    PackLength(bits, 5);
    LettersAreLower(Pack(bits, 5));
    RoundTrip(data, Encode(data));
    RoundTrip(data, UpperAll(Encode(data)));
  }

  lemma EncodeInjective(a: seq<byte>, b: seq<byte>)
    requires Encode(a) == Encode(b)
    ensures a == b
  {
    EncodeDecode(a);
    EncodeDecode(b);
  }

  // ---------------------------------------------------------------- the accumulating loops

  /** `value << n` on a `u32`: bits above position 31 are shed. */
  function Shl(value: u32, n: nat): u32
  {
    (value as int * Pow2(n) % TWO_TO_THE_32) as u32
  }

  function ShedBy(value: u32, n: nat): nat
  {
    value as int * Pow2(n) / TWO_TO_THE_32
  }

  lemma ShlValue(value: u32, n: nat)
    ensures Pow2(32) == TWO_TO_THE_32
    ensures Shl(value, n) as int == value as int * Pow2(n) - ShedBy(value, n) * Pow2(32)
  {
    assert Pow2(32) == TWO_TO_THE_32 by {
      Pow2Five();
      Pow2Add(8, 8);
      Pow2Add(16, 16);
    }
  }

  /** What is still to come out, given the bits pending and the bytes unread. */
  ghost function Rest(bits: seq<bool>, data: seq<byte>): string
  {
    PackDigits(bits + Unpack(data, 8), 5);
    Letters(Pack(bits + Unpack(data, 8), 5))
  }

  lemma RestReadByte(bits: seq<bool>, data: seq<byte>)
    requires data != []
    ensures Rest(bits, data) == Rest(bits + BitsOf(data[0], 8), data[1..])
  {
    assert bits + Unpack(data, 8) == bits + BitsOf(data[0], 8) + Unpack(data[1..], 8);
  }

  lemma RestWriteLetter(bits: seq<bool>, data: seq<byte>)
    requires |bits| >= 5
    ensures IntOf(bits[..5]) < 32
    ensures Rest(bits, data) == [Letter(IntOf(bits[..5]))] + Rest(bits[5..], data)
  {
    Pow2Five();
    IntOfBound(bits[..5]);
    var all := bits + Unpack(data, 8);
    assert all[..5] == bits[..5] && all[5..] == bits[5..] + Unpack(data, 8);
    var p := Pack(all, 5);
    PackDigits(all, 5);
    assert p[0] == IntOf(bits[..5]) && p[1..] == Pack(all[5..], 5);
  }

  lemma RestNothing()
    ensures Rest([], []) == ""
  {
    assert [] + Unpack([], 8) == [];
  }

  lemma RestLastLetter(bits: seq<bool>)
    requires 0 < |bits| < 5
    ensures var d := IntOf(bits + Zeros(5 - |bits|));
      d < 32 && Rest(bits, []) == [Letter(d)]
  {
    Pow2Five();
    var d := IntOf(bits + Zeros(5 - |bits|));
    IntOfBound(bits + Zeros(5 - |bits|));
    assert bits + Unpack([], 8) == bits;
    OneLetter(d);
  }

  lemma OneLetter(d: nat)
    requires d < 32
    ensures Digits([d], 5) && Letters([d]) == [Letter(d)]
  {
    Pow2Five();
    assert [d][1..] == [];
    assert Letters([]) == "";
  }

  /** `(value << 8) | byte`: the shift clears the low eight bits, so the byte is added. */
  function ShiftInByte(value: u32, b: byte): (r: u32)
    ensures r as int == Shl(value, 8) as int + b
  {
    Pow2Five();
    ShlValue(value, 8);
    assert Shl(value, 8) as int % 256 == 0;
    Shl(value, 8) + b as u32
  }

  lemma ShiftInByteRust(value: u32, pending: seq<bool>, b: byte)
    requires Pending(value as int, pending) && |pending| < 5
    ensures Pending(ShiftInByte(value, b) as int, pending + BitsOf(b, 8))
  {
    Pow2Five();
    ShlValue(value, 8);
    ShiftIn(value as int, pending, b, 8, ShedBy(value, 8), ShiftInByte(value, b) as int);
  }

  /** The next five bits: `(value >> (bits - 5)) & 31`. */
  function TopDigit(value: nat, bits: nat): (d: nat)
    requires bits >= 5
    ensures d < 32
  {
    value / Pow2(bits - 5) % 32
  }

  lemma TopLetter(value: nat, pending: seq<bool>)
    requires Pending(value, pending) && |pending| >= 5
    ensures TopDigit(value, |pending|) == IntOf(pending[..5]) < 32
    ensures ALPHABET[TopDigit(value, |pending|)] == Letter(IntOf(pending[..5]))
    ensures Pending(value, pending[5..])
  {
    Pow2Five();
    TakeTop(value, pending, 5);
    AlphabetIsLetters(TopDigit(value, |pending|));
  }

  /** The inner loop: letters are written while five bits are pending. */
  method WriteLetters(text: string, value: nat, held: nat, ghost pending: seq<bool>, ghost ahead: seq<byte>)
    returns (out: string, bits: nat, ghost left: seq<bool>)
    requires held == |pending| && Pending(value, pending)
    ensures bits == |left| < 5 && Pending(value, left)
    ensures out + Rest(left, ahead) == text + Rest(pending, ahead)
  {
    out, bits, left := text, held, pending;
    ghost var whole := text + Rest(pending, ahead);
    while bits >= 5
      invariant bits == |left| && Pending(value, left)
      invariant whole == out + Rest(left, ahead)
    {
      TopLetter(value, left);
      RestWriteLetter(left, ahead);
      out := out + [ALPHABET[TopDigit(value, bits)]];
      bits := bits - 5;
      left := left[5..];
    }
  }

  /** `value = (value << 8) | byte` in 32 bits. */
  method ReadByteRust(value: u32, b: byte, ghost pending: seq<bool>) returns (v: u32)
    requires Pending(value as int, pending) && |pending| < 5
    ensures Pending(v as int, pending + BitsOf(b, 8))
  {
    ShiftInByteRust(value, pending, b);
    v := ShiftInByte(value, b);
  }

  /** `ALPHABET[(value << (5 - bits)) & 31]` in 32 bits. */
  method LastRust(value: u32, bits: nat, ghost pending: seq<bool>) returns (c: char)
    requires Pending(value as int, pending) && 0 < |pending| < 5 && bits == |pending|
    ensures [c] == Rest(pending, [])
  {
    RestLastLetter(pending);
    LastLetterRust(value, pending);
    c := ALPHABET[Shl(value, 5 - bits) as int % 32];
  }

  method EncodeRust(data: seq<byte>) returns (out: string)
    ensures out == Encode(data)
  {
    out := "";
    var bits: nat, value: u32 := 0, 0;
    ghost var pending: seq<bool> := [];
    PendingEmpty(0);
    ghost var whole := Encode(data);
    assert [] + Unpack(data, 8) == Unpack(data, 8);
    for i := 0 to |data|
      invariant bits == |pending| < 5 && Pending(value as int, pending)
      invariant whole == out + Rest(pending, data[i..])
    {
      RestReadByte(pending, data[i..]);
      value := ReadByteRust(value, data[i], pending);
      bits := bits + 8;
      pending := pending + BitsOf(data[i], 8);
      out, bits, pending := WriteLetters(out, value as int, bits, pending, data[i + 1..]);
    }
    RestNothing();
    if bits > 0 {
      var c := LastRust(value, bits, pending);
      out := out + [c];
    }
  }

  lemma LastLetterRust(value: u32, pending: seq<bool>)
    requires Pending(value as int, pending) && 0 < |pending| < 5
    ensures var d := IntOf(pending + Zeros(5 - |pending|));
      d < 32 && ALPHABET[Shl(value, 5 - |pending|) as int % 32] == Letter(d)
  {
    Pow2Five();
    ShlValue(value, 5 - |pending|);
    FillUp(value as int, pending, 5, ShedBy(value, 5 - |pending|), Shl(value, 5 - |pending|) as int);
    AlphabetIsLetters(Shl(value, 5 - |pending|) as int % 32);
  }

  /** The same loop over an accumulator that is never masked, as in Python. */
  method EncodePython(data: seq<byte>) returns (out: string)
    ensures out == Encode(data)
  {
    out := "";
    var bits: nat, value: nat := 0, 0;
    ghost var pending: seq<bool> := [];
    PendingEmpty(0);
    ghost var whole := Encode(data);
    assert [] + Unpack(data, 8) == Unpack(data, 8);
    for i := 0 to |data|
      invariant bits == |pending| < 5 && Pending(value, pending)
      invariant whole == out + Rest(pending, data[i..])
    {
      RestReadByte(pending, data[i..]);
      ShiftInBytePython(value, pending, data[i]);
      value := PyShiftInByte(value, data[i]);
      bits := bits + 8;
      pending := pending + BitsOf(data[i], 8);
      out, bits, pending := WriteLetters(out, value, bits, pending, data[i + 1..]);
    }
    RestNothing();
    if bits > 0 {
      RestLastLetter(pending);
      LastLetterPython(value, pending);
      out := out + [ALPHABET[PyLastDigit(value, bits)]];
    }
  }

  function PyShiftInByte(value: nat, b: byte): nat
  {
    value * 256 + b
  }

  /** `(value << (5 - bits)) & 31`. */
  function PyLastDigit(value: nat, bits: nat): (d: nat)
    requires bits < 5
    ensures d < 32
  {
    value * Pow2(5 - bits) % 32
  }

  lemma ShiftInBytePython(value: nat, pending: seq<bool>, b: byte)
    requires Pending(value, pending)
    ensures Pending(PyShiftInByte(value, b), pending + BitsOf(b, 8))
  {
    Pow2Five();
    ShiftIn(value, pending, b, 8, 0, value * 256 + b);
  }

  lemma LastLetterPython(value: nat, pending: seq<bool>)
    requires Pending(value, pending) && 0 < |pending| < 5
    ensures var d := IntOf(pending + Zeros(5 - |pending|));
      d < 32 && ALPHABET[PyLastDigit(value, |pending|)] == Letter(d)
  {
    PyLastDigitIs(value, pending);
    AlphabetIsLetters(PyLastDigit(value, |pending|));
  }

  lemma PyLastDigitIs(value: nat, pending: seq<bool>)
    requires Pending(value, pending) && 0 < |pending| < 5
    ensures PyLastDigit(value, |pending|) == IntOf(pending + Zeros(5 - |pending|))
  {
    Pow2Five();
    FillUp(value, pending, 5, 0, value * Pow2(5 - |pending|));
  }

  // ---------------------------------------------------------------- decoding loop

  /** The bytes still to come out, given the bits pending and the text unread. */
  ghost function Remaining(bits: seq<bool>, s: string): Option<seq<byte>>
  {
    match DigitsOf(s)
    case None => None
    case Some(digits) => Some(WholeBytes(bits + Unpack(digits, 5)))
  }

  ghost function After(out: seq<byte>, rest: Option<seq<byte>>): Option<seq<byte>>
  {
    match rest
    case None => None
    case Some(bytes) => Some(out + bytes)
  }

  lemma RemainingReadChar(bits: seq<bool>, s: string)
    requires s != ""
    ensures Remaining(bits, s) == match DigitOf(s[0])
      case None => None
      case Some(d) => Remaining(bits + BitsOf(d, 5), s[1..])
  {
    if DigitsOf(s).Some? {
      var d, ds := DigitOf(s[0]).value, DigitsOf(s[1..]).value;
      assert ([d] + ds)[1..] == ds;
      assert bits + Unpack([d] + ds, 5) == bits + BitsOf(d, 5) + Unpack(ds, 5);
    }
  }

  lemma RemainingWriteByte(out: seq<byte>, bits: seq<bool>, s: string)
    requires |bits| >= 8
    ensures IntOf(bits[..8]) < 256
    ensures After(out, Remaining(bits, s)) == After(out + [IntOf(bits[..8])], Remaining(bits[8..], s))
  {
    Pow2Five();
    IntOfBound(bits[..8]);
    if DigitsOf(s).Some? {
      var all := bits + Unpack(DigitsOf(s).value, 5);
      assert all[..8] == bits[..8] && all[8..] == bits[8..] + Unpack(DigitsOf(s).value, 5);
      Assoc(out, [IntOf(bits[..8])], Whole(all[8..], 8));
    }
  }

  lemma RemainingEnd(out: seq<byte>, bits: seq<bool>)
    requires |bits| < 8
    ensures After(out, Remaining(bits, "")) == Some(out)
  {
    assert bits + Unpack([], 5) == bits;
    assert out + Whole(bits, 8) == out;
  }

  /** `(value << 5) | digit` on a `u32`. */
  function ShiftInDigit(value: u32, d: nat): (r: u32)
    requires d < 32
    ensures r as int == Shl(value, 5) as int + d
  {
    Pow2Five();
    ShlValue(value, 5);
    assert Shl(value, 5) as int % 32 == 0;
    Shl(value, 5) + d as u32
  }

  lemma ShiftInDigitRust(value: u32, pending: seq<bool>, d: nat)
    requires Pending(value as int, pending) && |pending| < 8 && d < 32
    ensures Pending(ShiftInDigit(value, d) as int, pending + BitsOf(d, 5))
  {
    Pow2Five();
    ShlValue(value, 5);
    ShiftIn(value as int, pending, d, 5, ShedBy(value, 5), ShiftInDigit(value, d) as int);
  }

  method DecodeRust(s: string) returns (r: Option<seq<byte>>)
    ensures r == Decode(s)
  {
    var out: seq<byte> := [];
    var bits: nat, value: u32 := 0, 0;
    ghost var pending: seq<bool> := [];
    PendingEmpty(0);
    DecodeIsRemaining(s);
    for i := 0 to |s|
      invariant bits == |pending| < 8 && Pending(value as int, pending)
      invariant Decode(s) == After(out, Remaining(pending, s[i..]))
    {
      RemainingReadChar(pending, s[i..]);
      var d := DigitOf(s[i]);
      if d.None? {
        return None;
      }
      ShiftInDigitRust(value, pending, d.value);
      value := ShiftInDigit(value, d.value);
      bits := bits + 5;
      pending := pending + BitsOf(d.value, 5);
      if bits >= 8 {
        Pow2Five();
        TakeTop(value as int, pending, 8);
        RemainingWriteByte(out, pending, s[i + 1..]);
        out := out + [value as int / Pow2(bits - 8) % 256];
        bits := bits - 8;
        pending := pending[8..];
      }
    }
    RemainingEnd(out, pending);
    r := Some(out);
  }

  lemma DecodeIsRemaining(s: string)
    ensures Decode(s) == After([], Remaining([], s))
  {
    if DigitsOf(s).Some? {
      var bits := Unpack(DigitsOf(s).value, 5);
      assert [] + bits == bits;
      assert [] + Whole(bits, 8) == Whole(bits, 8);
    }
  }
}
