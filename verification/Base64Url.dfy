/**
 Base64url, RFC 4648 section 5, unpadded, as the client builds it out of `btoa` and `atob`:
 encode in the standard alphabet, swap two characters, drop the padding, and back.
 */
module Base64Url {
  import opened Wrappers
  import opened Wire
  import opened Numbers
  import opened BitCodec

  function Letter(d: nat): char
    requires d < 64
  {
    if d < 26 then ('A' as int + d) as char
    else if d < 52 then ('a' as int + d - 26) as char
    else if d < 62 then ('0' as int + d - 52) as char
    else if d == 62 then '+' else '/'
  }

  function DigitOf(c: char): Option<nat>
  {
    if 'A' <= c <= 'Z' then Some(c as int - 'A' as int)
    else if 'a' <= c <= 'z' then Some(c as int - 'a' as int + 26)
    else if '0' <= c <= '9' then Some(c as int - '0' as int + 52)
    else if c == '+' then Some(62)
    else if c == '/' then Some(63)
    else None
  }

  lemma Pow2Six()
    ensures Pow2(6) == 64 && Pow2(8) == 256
  {
    assert Pow2(3) == 8;
  }

  function Letters(digits: seq<nat>): (s: string)
    requires Digits(digits, 6)
    ensures |s| == |digits|
  {
    if digits == [] then ""
    else
      Pow2Six();
      DigitsTail(digits, 6);
      [Letter(digits[0])] + Letters(digits[1..])
  }

  function DigitsOf(s: string): Option<seq<nat>>
  {
    if s == "" then Some([])
    else match (DigitOf(s[0]), DigitsOf(s[1..]))
      case (Some(d), Some(ds)) => Some([d] + ds)
      case _ => None
  }

  function Pads(n: nat): (s: string)
    ensures |s| == n
  {
    if n == 0 then "" else Pads(n - 1) + "="
  }

  /** How many `=` bring a text of `n` characters to a multiple of four. */
  function PadCount(n: nat): nat
  {
    (4 - n % 4) % 4
  }

  function Btoa(data: seq<byte>): string
  {
    PackDigits(Unpack(data, 8), 6);
    var s := Letters(Pack(Unpack(data, 8), 6));
    s + Pads(PadCount(|s|))
  }

  predicate IsSpace(c: char)
  {
    c == ' ' || c == '\t' || c == '\n' || c == '\r' || c as int == 12
  }

  function StripSpaces(s: string): string
  {
    if s == "" then ""
    else if IsSpace(s[0]) then StripSpaces(s[1..])
    else [s[0]] + StripSpaces(s[1..])
  }

  /** Drops one trailing `=`, if there is one. */
  function DropPad(s: string): string
  {
    if s != "" && s[|s| - 1] == '=' then s[..|s| - 1] else s
  }

  /** The forgiving decoder of the web platform; `None` is its exception. */
  function Atob(input: string): Option<seq<byte>>
  {
    var s := StripSpaces(input);
    DecodeUnpadded(if |s| % 4 == 0 then DropPad(DropPad(s)) else s)
  }

  function DecodeUnpadded(t: string): Option<seq<byte>>
  {
    if |t| % 4 == 1 then None
    else match DigitsOf(t)
      case None => None
      case Some(digits) => Some(WholeBytes(Unpack(digits, 6)))
  }

  function WholeBytes(bits: seq<bool>): (bytes: seq<byte>)
    ensures bytes == Whole(bits, 8)
  {
    Pow2Six();
    WholeDigits(bits, 8);
    var d := Whole(bits, 8);
    assert forall i :: 0 <= i < |d| ==> d[i] in d;
    d
  }

  function ToUrl(s: string): (t: string)
    ensures |t| == |s|
  {
    if s == "" then ""
    else [if s[0] == '+' then '-' else if s[0] == '/' then '_' else s[0]] + ToUrl(s[1..])
  }

  function FromUrl(s: string): (t: string)
    ensures |t| == |s|
  {
    if s == "" then ""
    else [if s[0] == '-' then '+' else if s[0] == '_' then '/' else s[0]] + FromUrl(s[1..])
  }

  function StripPads(s: string): string
  {
    if s != "" && s[|s| - 1] == '=' then StripPads(s[..|s| - 1]) else s
  }

  function Encode(data: seq<byte>): string
  {
    StripPads(ToUrl(Btoa(data)))
  }

  function Decode(s: string): Option<seq<byte>>
  {
    Atob(FromUrl(s) + Pads(PadCount(|s|)))
  }

  // ---------------------------------------------------------------- round trip

  predicate Plain(s: string)
  {
    forall c :: c in s ==> DigitOf(c).Some?
  }

  lemma {:induction false} LettersPlain(digits: seq<nat>)
    requires Digits(digits, 6)
    ensures Plain(Letters(digits)) && DigitsOf(Letters(digits)) == Some(digits)
  {
    if digits != [] {
      Pow2Six();
      DigitsTail(digits, 6);
      LettersPlain(digits[1..]);
      assert Letters(digits)[1..] == Letters(digits[1..]);
      assert digits == [digits[0]] + digits[1..];
    }
  }

  lemma {:induction false} ToUrlAppend(s: string, t: string)
    ensures ToUrl(s + t) == ToUrl(s) + ToUrl(t)
  {
    if s == "" {
      assert s + t == t;
    } else {
      ToUrlAppend(s[1..], t);
      assert (s + t)[0] == s[0] && (s + t)[1..] == s[1..] + t;
    }
  }

  lemma {:induction false} ToUrlPads(n: nat)
    ensures ToUrl(Pads(n)) == Pads(n)
  {
    if n > 0 {
      ToUrlPads(n - 1);
      ToUrlAppend(Pads(n - 1), "=");
      assert "="[1..] == "";
      assert ToUrl("=") == "=";
    }
  }

  lemma {:induction false} FromToUrl(s: string)
    requires Plain(s)
    ensures FromUrl(ToUrl(s)) == s
    ensures forall c :: c in ToUrl(s) ==> c != '='
  {
    if s != "" {
      assert forall c :: c in s[1..] ==> c in s;
      FromToUrl(s[1..]);
      assert s[0] in s;
      assert ToUrl(s)[1..] == ToUrl(s[1..]);
      assert s == [s[0]] + s[1..];
    }
  }

  /** A text with one more `=` is that text followed by `=`. */
  lemma OneMorePad(s: string, n: nat)
    requires n > 0
    ensures s + Pads(n) == (s + Pads(n - 1)) + "="
  {}

  lemma {:induction false} StripAllPads(s: string, n: nat)
    requires forall c :: c in s ==> c != '='
    ensures StripPads(s + Pads(n)) == s
  {
    if n == 0 {
      assert s + Pads(0) == s;
      assert s != "" ==> s[|s| - 1] in s;
    } else {
      StripAllPads(s, n - 1);
      OneMorePad(s, n);
      var t := s + Pads(n);
      assert t[..|t| - 1] == s + Pads(n - 1);
    }
  }

  lemma {:induction false} StripSpacesAppend(s: string, t: string)
    ensures StripSpaces(s + t) == StripSpaces(s) + StripSpaces(t)
  {
    if s == "" {
      assert s + t == t;
    } else {
      StripSpacesAppend(s[1..], t);
      assert (s + t)[0] == s[0] && (s + t)[1..] == s[1..] + t;
    }
  }

  lemma {:induction false} PlainHasNoSpaces(s: string)
    requires Plain(s)
    ensures StripSpaces(s) == s
  {
    if s != "" {
      assert forall c :: c in s[1..] ==> c in s;
      PlainHasNoSpaces(s[1..]);
      assert s[0] in s;
      assert s == [s[0]] + s[1..];
    }
  }

  lemma {:induction false} PadsHaveNoSpaces(n: nat)
    ensures StripSpaces(Pads(n)) == Pads(n)
  {
    if n > 0 {
      PadsHaveNoSpaces(n - 1);
      StripSpacesAppend(Pads(n - 1), "=");
      assert "="[1..] == "";
      assert StripSpaces("=") == "=";
    }
  }

  lemma NoSpaces(s: string, n: nat)
    requires Plain(s)
    ensures StripSpaces(s + Pads(n)) == s + Pads(n)
  {
    StripSpacesAppend(s, Pads(n));
    PlainHasNoSpaces(s);
    PadsHaveNoSpaces(n);
  }

  /** Three bytes make four characters, so a text never ends one past a multiple of four. */
  lemma TextLength(n: nat)
    ensures CeilDiv(8 * n, 6) % 4 != 1
  {
    var q, r := n / 3, n % 3;
    assert n == 3 * q + r;
    if r == 0 {
      DivMod(8 * n, 6, 4 * q, 0);
    } else if r == 1 {
      DivMod(8 * n, 6, 4 * q + 1, 2);
    } else {
      DivMod(8 * n, 6, 4 * q + 2, 4);
    }
  }

  lemma DropOnePad(s: string, n: nat)
    requires Plain(s)
    ensures DropPad(s + Pads(n)) == s + Pads(if n == 0 then 0 else n - 1)
  {
    var t := s + Pads(n);
    if n == 0 {
      assert t == s;
      assert s != "" ==> s[|s| - 1] in s;
    } else {
      OneMorePad(s, n);
      assert t[..|t| - 1] == s + Pads(n - 1);
    }
  }

  lemma DropPads(s: string, n: nat)
    requires Plain(s) && n <= 2
    ensures DropPad(DropPad(s + Pads(n))) == s
  {
    DropOnePad(s, n);
    DropOnePad(s, if n == 0 then 0 else n - 1);
    assert s + Pads(0) == s;
  }

  lemma EncodeText(data: seq<byte>, s: string)
    requires Digits(Pack(Unpack(data, 8), 6), 6) && s == Letters(Pack(Unpack(data, 8), 6))
    ensures Plain(s) && Encode(data) == ToUrl(s)
  {
    var n := PadCount(|s|);
    LettersPlain(Pack(Unpack(data, 8), 6));
    ToUrlAppend(s, Pads(n));
    ToUrlPads(n);
    FromToUrl(s);
    StripAllPads(ToUrl(s), n);
  }

  lemma AtobPlain(s: string)
    requires Plain(s) && |s| % 4 != 1
    ensures Atob(s + Pads(PadCount(|s|))) == DecodeUnpadded(s)
  {
    PadCountFacts(|s|);
    AtobPadded(s, PadCount(|s|));
  }

  lemma PadCountFacts(n: nat)
    ensures (n + PadCount(n)) % 4 == 0 && (n % 4 != 1 ==> PadCount(n) <= 2)
  {}

  lemma AtobPadded(s: string, n: nat)
    requires Plain(s) && n <= 2 && (|s| + n) % 4 == 0
    ensures Atob(s + Pads(n)) == DecodeUnpadded(s)
  {
    NoSpaces(s, n);
    DropPads(s, n);
    assert |s + Pads(n)| == |s| + n;
  }

  /** Decoding gives back the encoded bytes, whatever their number. */
  lemma RoundTrip(data: seq<byte>)
    ensures Decode(Encode(data)) == Some(data)
  {
    Pow2Six();
    var bits := Unpack(data, 8);
    var digits := Pack(bits, 6);
    PackDigits(bits, 6);
    PackLength(bits, 6);
    TextLength(|data|);
    var s := Letters(digits);
    EncodeText(data, s);
    FromToUrl(s);
    LettersPlain(digits);
    AtobPlain(s);
    RegroupRoundTrip(data, 8, 6);
  }
}
