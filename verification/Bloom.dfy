/**
 The Bloom filter that two devices reconcile with: five positions per identifier in an array of
 256 bytes, found by a 32-bit FNV-1a hash started from five different offsets.

 `text` stands for UTF-8 encoding.
 */
module Bloom {
  import opened Wrappers
  import opened Wire
  import opened Numbers
  import opened BitCodec
  import Base64Url

  type Text = string -> seq<byte>

  /** The hash the filter is built over; the program's is `(value, seed) => Hash(text, value, seed)`. */
  type SeededHash = (string, nat) -> nat

  const SEEDS := 5
  const BYTE_LENGTH := 256
  const FNV_OFFSET: nat := 2166136261

  // ---------------------------------------------------------------- hashing

  /** Exclusive or of 32-bit numbers. */
  function Xor32(a: nat, b: nat): nat
  {
    var x, y := BitsOf(a, 32), BitsOf(b, 32);
    IntOf(seq(32, i requires 0 <= i < 32 => x[i] != y[i]))
  }

  /** `Math.imul(a, 16777619) >>> 0`. */
  function TimesPrime(a: nat): nat
  {
    a * 16777619 % 0x1_0000_0000
  }

  function Fnv(start: nat, bytes: seq<byte>): nat
  {
    if bytes == [] then start
    else TimesPrime(Xor32(Fnv(start, bytes[..|bytes| - 1]), bytes[|bytes| - 1]))
  }

  function Hash(text: Text, value: string, seed: nat): nat
  {
    Fnv(Xor32(FNV_OFFSET, seed), text(value))
  }

  method ComputeHash(text: Text, value: string, seed: nat) returns (result: nat)
    ensures result == Hash(text, value, seed)
  {
    var bytes := text(value);
    result := Xor32(FNV_OFFSET, seed);
    for i := 0 to |bytes|
      invariant result == Fnv(Xor32(FNV_OFFSET, seed), bytes[..i])
    {
      assert bytes[..i + 1][..i] == bytes[..i];
      result := Xor32(result, bytes[i]);
      result := TimesPrime(result);
    }
    assert bytes[..|bytes|] == bytes;
  }

  function Position(hash: SeededHash, value: string, seed: nat): (p: nat)
    ensures p < 8 * BYTE_LENGTH
  {
    hash(value, seed) % (8 * BYTE_LENGTH)
  }

  /** The positions the first `n` seeds give. */
  ghost function PositionsTo(hash: SeededHash, value: string, n: nat): set<nat>
  {
    if n == 0 then {} else PositionsTo(hash, value, n - 1) + {Position(hash, value, n - 1)}
  }

  /** The bits an identifier stands for. */
  ghost function Positions(hash: SeededHash, value: string): set<nat>
  {
    PositionsTo(hash, value, SEEDS)
  }

  /** Five positions in 2048 bits, one for each seed. */
  lemma PositionsAre(hash: SeededHash, value: string)
    ensures Positions(hash, value) ==
      {hash(value, 0) % 2048, hash(value, 1) % 2048, hash(value, 2) % 2048, hash(value, 3) % 2048,
       hash(value, 4) % 2048}
  {
    var p := n => PositionsTo(hash, value, n);
    assert p(5) == p(4) + {Position(hash, value, 4)} && p(4) == p(3) + {Position(hash, value, 3)};
    assert p(3) == p(2) + {Position(hash, value, 2)} && p(2) == p(1) + {Position(hash, value, 1)};
    assert p(1) == p(0) + {Position(hash, value, 0)};
  }

  // ---------------------------------------------------------------- bits in bytes

  type Bits = s: seq<byte> | |s| == BYTE_LENGTH witness seq(BYTE_LENGTH, _ => 0)

  /** `b & (1 << k)` is not zero. */
  predicate Bit(b: byte, k: nat)
    requires k < 8
  {
    BitsOf(b, 8)[7 - k]
  }

  /** `b | (1 << k)`. */
  function WithBit(b: byte, k: nat): (r: byte)
    requires k < 8
  {
    IntOfBound(BitsOf(b, 8)[7 - k := true]);
    Base64Url.Pow2Six();
    IntOf(BitsOf(b, 8)[7 - k := true])
  }

  lemma {:induction false} BitAt(v: nat, n: nat, k: nat)
    requires k < n
    ensures BitsOf(v, n)[n - 1 - k] <==> v / Pow2(k) % 2 == 1
    decreases k
  {
    if k > 0 {
      BitAt(v / 2, n - 1, k - 1);
      assert v / Pow2(k) == v / 2 / Pow2(k - 1) by {
        HalfFirst(v, Pow2(k - 1));
      }
    }
  }

  lemma HalfFirst(v: nat, b: nat)
    requires b > 0
    ensures v / (2 * b) == v / 2 / b
  {
    var half := v / 2;
    var q, r := half / b, half % b;
    assert half == q * b + r;
    assert q * (2 * b) == 2 * (q * b);
    DivMod(v, 2 * b, q, 2 * r + v % 2);
  }

  /** Bit `k` is the one worth 2^k. */
  lemma BitIs(b: byte, k: nat)
    requires k < 8
    ensures Bit(b, k) <==> b / Pow2(k) % 2 == 1
  {
    BitAt(b, 8, k);
  }

  lemma WithBitSets(b: byte, k: nat, j: nat)
    requires k < 8 && j < 8
    ensures Bit(WithBit(b, k), j) <==> j == k || Bit(b, j)
  {
    BitsOfInt(BitsOf(b, 8)[7 - k := true]);
  }

  predicate IsSet(bits: Bits, p: nat)
    requires p < 8 * BYTE_LENGTH
  {
    Bit(bits[p / 8], p % 8)
  }

  /** The positions of the bits that are set. */
  ghost function On(bits: Bits): set<nat>
  {
    set p: nat | p < 8 * BYTE_LENGTH && IsSet(bits, p)
  }

  /** The bits for all five seeds are set. */
  predicate Has(hash: SeededHash, bits: Bits, value: string)
  {
    forall seed: nat :: seed < SEEDS ==> IsSet(bits, Position(hash, value, seed))
  }

  lemma {:induction false} HasAllTo(hash: SeededHash, bits: Bits, value: string, n: nat)
    ensures PositionsTo(hash, value, n) <= On(bits)
       <==> forall s: nat :: s < n ==> IsSet(bits, Position(hash, value, s))
  {
    if n > 0 {
      HasAllTo(hash, bits, value, n - 1);
    }
  }

  /** The positions of all identifiers in a list. */
  ghost function AllPositions(hash: SeededHash, ids: seq<string>): set<nat>
  {
    if ids == [] then {} else AllPositions(hash, ids[..|ids| - 1]) + Positions(hash, ids[|ids| - 1])
  }

  lemma {:induction false} Covered(hash: SeededHash, ids: seq<string>, value: string)
    requires value in ids
    ensures Positions(hash, value) <= AllPositions(hash, ids)
  {
    if ids[|ids| - 1] != value {
      assert value in ids[..|ids| - 1];
      Covered(hash, ids[..|ids| - 1], value);
    }
  }

  // ---------------------------------------------------------------- the filter

  class MeshBloom {
    const bits: array<byte>

    ghost predicate Valid()
    {
      bits.Length == BYTE_LENGTH
    }

    constructor ()
      ensures Valid() && fresh(bits)
      ensures On(bits[..]) == {}
    {
      bits := new byte[BYTE_LENGTH](_ => 0);
      new;
      ZeroBits();
    }

    constructor FromBytes(data: Bits)
      ensures Valid() && fresh(bits) && bits[..] == data
    {
      bits := new byte[BYTE_LENGTH](i requires 0 <= i < BYTE_LENGTH => data[i]);
    }

    /** `bits[position / 8] |= 1 << (position % 8)`. */
    method SetPosition(position: nat)
      requires Valid() && position < 8 * BYTE_LENGTH
      modifies bits
      ensures On(bits[..]) == On(old(bits[..])) + {position}
    {
      ghost var before := bits[..];
      bits[position / 8] := WithBit(bits[position / 8], position % 8);
      SetOne(before, bits[..], position);
    }

    method Add(hash: SeededHash, value: string)
      requires Valid()
      modifies bits
      ensures On(bits[..]) == On(old(bits[..])) + Positions(hash, value)
    {
      for seed := 0 to SEEDS
        invariant On(bits[..]) == On(old(bits[..])) + PositionsTo(hash, value, seed)
      {
        SetPosition(hash(value, seed) % (8 * BYTE_LENGTH));
      }
    }

    method Contains(hash: SeededHash, value: string) returns (r: bool)
      requires Valid()
      ensures r <==> Has(hash, bits[..], value)
    {
      for seed := 0 to SEEDS
        invariant forall s: nat :: s < seed ==> IsSet(bits[..], Position(hash, value, s))
      {
        var position := hash(value, seed) % (8 * BYTE_LENGTH);
        assert position == Position(hash, value, seed);
        if !Bit(bits[position / 8], position % 8) {
          assert !IsSet(bits[..], position);
          return false;
        }
      }
      r := true;
    }

    method Encoded() returns (s: string)
      requires Valid()
      ensures s == Base64Url.Encode(bits[..])
    {
      s := Base64Url.Encode(bits[..]);
    }
  }

  lemma SetOne(before: Bits, after: Bits, position: nat)
    requires position < 8 * BYTE_LENGTH
    requires after == before[position / 8 := WithBit(before[position / 8], position % 8)]
    ensures On(after) == On(before) + {position}
  {
    forall p: nat | p < 8 * BYTE_LENGTH
      ensures IsSet(after, p) <==> IsSet(before, p) || p == position
    {
      if p / 8 == position / 8 {
        WithBitSets(before[position / 8], position % 8, p % 8);
      }
    }
  }

  lemma ZeroBits()
    ensures forall k :: 0 <= k < 8 ==> !Bit(0, k)
  {
    IntOfZeros(8);
    BitsOfInt(Zeros(8));
  }

  /** The filter with no bit set. */
  function Blank(): (bits: Bits)
    ensures On(bits) == {}
  {
    ZeroBits();
    seq(BYTE_LENGTH, _ => 0)
  }

  /** The bits a summary stands for: an empty text is a blank filter, `None` the error for a wrong length. */
  function ReceivedBits(encoded: string): Option<Bits>
  {
    if encoded == "" then Some(Blank())
    else match Base64Url.Decode(encoded)
      case None => None
      case Some(data) => if |data| == BYTE_LENGTH then Some(data) else None
  }

  /** A filter that was sent is received as it was. */
  lemma SentIsReceived(bits: Bits)
    ensures ReceivedBits(Base64Url.Encode(bits)) == Some(bits)
  {
    Base64Url.RoundTrip(bits);
    EmptyText();
  }

  lemma EmptyText()
    ensures Base64Url.Decode("") == Some([])
  {
    assert "" + "" == "";
  }

  method Received(encoded: string) returns (r: Option<MeshBloom>)
    ensures r.Some? <==> ReceivedBits(encoded).Some?
    ensures r.Some? ==> r.value.Valid() && r.value.bits[..] == ReceivedBits(encoded).value
  {
    if encoded == "" {
      var blank := new MeshBloom.FromBytes(Blank());
      return Some(blank);
    }
    var data := Base64Url.Decode(encoded);
    if data.None? || |data.value| != BYTE_LENGTH {
      return None;
    }
    var bloom := new MeshBloom.FromBytes(data.value);
    r := Some(bloom);
  }

  /** The text is received as the filter with exactly the positions of these identifiers set. */
  ghost predicate StandsFor(hash: SeededHash, encoded: string, ids: seq<string>)
  {
    var bits := ReceivedBits(encoded);
    bits.Some? && On(bits.value) == AllPositions(hash, ids)
  }

  /** The filter over a list of identifiers, as a device summarises what it holds. */
  method Summarise(hash: SeededHash, ids: seq<string>) returns (encoded: string)
    ensures StandsFor(hash, encoded, ids)
  {
    var bloom := new MeshBloom();
    for i := 0 to |ids|
      invariant bloom.Valid() && On(bloom.bits[..]) == AllPositions(hash, ids[..i])
    {
      bloom.Add(hash, ids[i]);
      assert ids[..i + 1][..i] == ids[..i];
    }
    assert ids[..|ids|] == ids;
    SentIsReceived(bloom.bits[..]);
    encoded := bloom.Encoded();
  }

  /**
   A received summary answers yes for every identifier it was built from, and for another one
   exactly when the identifiers together cover its positions.
   */
  lemma SummaryCovers(hash: SeededHash, ids: seq<string>, encoded: string, value: string)
    requires StandsFor(hash, encoded, ids)
    ensures var bits := ReceivedBits(encoded).value;
      && (value in ids ==> Has(hash, bits, value))
      && (Has(hash, bits, value) <==> Positions(hash, value) <= AllPositions(hash, ids))
  {
    HasAllTo(hash, ReceivedBits(encoded).value, value, SEEDS);
    if value in ids {
      Covered(hash, ids, value);
    }
  }
}
