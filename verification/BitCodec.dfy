/**
 Regrouping a string of bits: the arithmetic behind base32 (groups of five) and base64url
 (groups of six), RFC 4648. Bits are listed most significant first.
 */
module BitCodec {
  import opened Numbers

  function IntOf(bits: seq<bool>): (v: nat)
  {
    if bits == [] then 0 else 2 * IntOf(bits[..|bits| - 1]) + if bits[|bits| - 1] then 1 else 0
  }

  function BitsOf(v: nat, n: nat): (bits: seq<bool>)
    ensures |bits| == n
  {
    if n == 0 then [] else BitsOf(v / 2, n - 1) + [v % 2 == 1]
  }

  function Zeros(n: nat): (bits: seq<bool>)
    ensures |bits| == n
  {
    seq(n, _ => false)
  }

  lemma {:induction false} IntOfBound(bits: seq<bool>)
    ensures IntOf(bits) < Pow2(|bits|)
  {
    if bits != [] {
      IntOfBound(bits[..|bits| - 1]);
    }
  }

  lemma {:induction false} IntOfBits(v: nat, n: nat)
    requires v < Pow2(n)
    ensures IntOf(BitsOf(v, n)) == v
  {
    if n > 0 {
      IntOfBits(v / 2, n - 1);
      assert BitsOf(v, n)[..n - 1] == BitsOf(v / 2, n - 1);
    }
  }

  lemma {:induction false} BitsOfInt(bits: seq<bool>)
    ensures BitsOf(IntOf(bits), |bits|) == bits
  {
    if bits != [] {
      BitsOfInt(bits[..|bits| - 1]);
      assert bits == bits[..|bits| - 1] + [bits[|bits| - 1]];
    }
  }

  lemma {:induction false} IntOfAppend(a: seq<bool>, b: seq<bool>)
    ensures IntOf(a + b) == IntOf(a) * Pow2(|b|) + IntOf(b)
  {
    if b == [] {
      assert a + b == a;
    } else {
      var b' := b[..|b| - 1];
      IntOfAppend(a, b');
      assert (a + b)[..|a + b| - 1] == a + b';
      assert 2 * (IntOf(a) * Pow2(|b'|)) == IntOf(a) * (2 * Pow2(|b'|));
    }
  }

  lemma {:induction false} IntOfZeros(n: nat)
    ensures IntOf(Zeros(n)) == 0
  {
    if n > 0 {
      IntOfZeros(n - 1);
      assert Zeros(n)[..n - 1] == Zeros(n - 1);
    }
  }

  // ---------------------------------------------------------------- regrouping

  predicate Digits(d: seq<nat>, k: nat)
  {
    forall v :: v in d ==> v < Pow2(k)
  }

  /** The bits of `k`-bit digits, one digit after another. */
  function Unpack(d: seq<nat>, k: nat): (bits: seq<bool>)
    ensures |bits| == |d| * k
  {
    if d == [] then [] else BitsOf(d[0], k) + Unpack(d[1..], k)
  }

  /** The whole groups of `k` bits; an incomplete last group is dropped. */
  function Whole(bits: seq<bool>, k: nat): (d: seq<nat>)
    requires k > 0
  {
    if |bits| < k then [] else [IntOf(bits[..k])] + Whole(bits[k..], k)
  }

  /** All groups of `k` bits, the last one filled up with zero bits. */
  function Pack(bits: seq<bool>, k: nat): (d: seq<nat>)
    requires k > 0
  {
    if bits == [] then []
    else if |bits| < k then [IntOf(bits + Zeros(k - |bits|))]
    else [IntOf(bits[..k])] + Pack(bits[k..], k)
  }

  function CeilDiv(n: nat, k: nat): nat
    requires k > 0
  {
    if n % k == 0 then n / k else n / k + 1
  }

  lemma {:induction false} PackLength(bits: seq<bool>, k: nat)
    requires k > 0
    ensures |Pack(bits, k)| == CeilDiv(|bits|, k)
  {
    if bits == [] {
      DivMod(0, k, 0, 0);
    } else if |bits| < k {
      DivMod(|bits|, k, 0, |bits|);
    } else {
      PackLength(bits[k..], k);
      DivStep(|bits|, k);
    }
  }

  lemma {:induction false} PackDigits(bits: seq<bool>, k: nat)
    requires k > 0
    ensures Digits(Pack(bits, k), k)
  {
    if bits == [] {
    } else if |bits| < k {
      IntOfBound(bits + Zeros(k - |bits|));
    } else {
      IntOfBound(bits[..k]);
      PackDigits(bits[k..], k);
    }
  }

  lemma {:induction false} WholeDigits(bits: seq<bool>, k: nat)
    requires k > 0
    ensures Digits(Whole(bits, k), k)
  {
    if |bits| >= k {
      IntOfBound(bits[..k]);
      WholeDigits(bits[k..], k);
    }
  }

  function Padding(n: nat, k: nat): (p: nat)
    requires k > 0
    ensures p < k
  {
    if n % k == 0 then 0 else k - n % k
  }

  lemma {:induction false} UnpackPack(bits: seq<bool>, k: nat)
    requires k > 0
    ensures Unpack(Pack(bits, k), k) == bits + Zeros(Padding(|bits|, k))
  {
    if bits == [] {
      DivMod(0, k, 0, 0);
    } else if |bits| < k {
      DivMod(|bits|, k, 0, |bits|);
      var full := bits + Zeros(k - |bits|);
      BitsOfInt(full);
      UnpackOne(IntOf(full), k);
    } else {
      var head, rest := bits[..k], bits[k..];
      BitsOfInt(head);
      UnpackPack(rest, k);
      PaddingStep(|bits|, k);
      assert bits == head + rest;
      UnpackFirst(IntOf(head), Pack(rest, k), k);
    }
  }

  lemma PaddingStep(n: nat, k: nat)
    requires 0 < k <= n
    ensures Padding(n, k) == Padding(n - k, k)
  {
    DivStep(n, k);
  }

  lemma UnpackFirst(v: nat, d: seq<nat>, k: nat)
    ensures Unpack([v] + d, k) == BitsOf(v, k) + Unpack(d, k)
  {
    assert ([v] + d)[0] == v && ([v] + d)[1..] == d;
  }

  lemma UnpackOne(v: nat, k: nat)
    ensures Unpack([v], k) == BitsOf(v, k)
  {
    assert [v][1..] == [];
    assert Unpack([], k) == [];
  }

  lemma {:induction false} WholeUnpack(d: seq<nat>, k: nat, extra: seq<bool>)
    requires k > 0 && Digits(d, k) && |extra| < k
    ensures Whole(Unpack(d, k) + extra, k) == d
  {
    if d == [] {
      assert Unpack(d, k) + extra == extra;
    } else {
      var head, rest := BitsOf(d[0], k), Unpack(d[1..], k) + extra;
      DigitsTail(d, k);
      IntOfBits(d[0], k);
      WholeUnpack(d[1..], k, extra);
      assert Unpack(d, k) + extra == head + rest;
      WholeFirst(head, rest, k);
      assert d == [d[0]] + d[1..];
    }
  }

  lemma WholeFirst(head: seq<bool>, rest: seq<bool>, k: nat)
    requires k > 0 && |head| == k
    ensures Whole(head + rest, k) == [IntOf(head)] + Whole(rest, k)
  {
    assert (head + rest)[..k] == head && (head + rest)[k..] == rest;
  }

  lemma DigitsTail(d: seq<nat>, k: nat)
    requires d != [] && Digits(d, k)
    ensures d[0] < Pow2(k) && Digits(d[1..], k)
  {
    assert d[0] in d;
    forall v | v in d[1..] ensures v < Pow2(k) {
      assert v in d;
    }
  }

  /** Regrouping digits of `n` bits into groups of `k <= n`, filled up, loses nothing. */
  lemma RegroupRoundTrip(d: seq<nat>, n: nat, k: nat)
    requires 0 < k <= n && Digits(d, n)
    ensures Whole(Unpack(Pack(Unpack(d, n), k), k), n) == d
  {
    UnpackPack(Unpack(d, n), k);
    WholeUnpack(d, n, Zeros(Padding(|Unpack(d, n)|, k)));
  }

  // ---------------------------------------------------------------- the shifting accumulator

  /** The low bits of an accumulator are the pending bits; what is above them is stale. */
  ghost predicate Pending(value: nat, bits: seq<bool>)
  {
    value % Pow2(|bits|) == IntOf(bits)
  }

  lemma PendingEmpty(value: nat)
    ensures Pending(value, [])
  {
    assert Pow2(0) == 1;
  }

  /** Shifting a digit in: `value * 2^n + digit`, less whatever was shed above bit 32. */
  lemma ShiftIn(value: nat, bits: seq<bool>, digit: nat, n: nat, shed: nat, value': nat)
    requires Pending(value, bits) && digit < Pow2(n)
    requires shed == 0 || |bits| + n <= 32
    requires value' == value * Pow2(n) + digit - shed * Pow2(32)
    ensures Pending(value', bits + BitsOf(digit, n))
  {
    IntOfBits(digit, n);
    ShiftInBits(value, bits, BitsOf(digit, n), n, digit, shed, value');
  }

  lemma ShiftInBits(value: nat, bits: seq<bool>, tail: seq<bool>, n: nat, digit: nat, shed: nat, value': nat)
    requires Pending(value, bits) && |tail| == n && IntOf(tail) == digit
    requires shed == 0 || |bits| + n <= 32
    requires value' == value * Pow2(n) + digit - shed * Pow2(32)
    ensures Pending(value', bits + tail)
  {
    IntOfAppend(bits, tail);
    IntOfBound(tail);
    ShiftedRemainder(value, |bits|, n, IntOf(bits), digit, IntOf(bits + tail), shed, value');
  }

  lemma ShiftedRemainder(v: nat, k: nat, n: nat, r: nat, g: nat, t: nat, shed: nat, v': nat)
    requires v % Pow2(k) == r && g < Pow2(n) && t == r * Pow2(n) + g
    requires shed == 0 || k + n <= 32
    requires v' == v * Pow2(n) + g - shed * Pow2(32)
    ensures v' % Pow2(k + n) == t
  {
    var x := v * Pow2(n) + g;
    ScaledRemainder(v, k, n, r, g, t);
    ShedRemainder(x, shed, k + n, v', t);
  }

  lemma ShedRemainder(x: nat, shed: nat, n: nat, x': nat, t: nat)
    requires shed == 0 || n <= 32
    requires x' == x - shed * Pow2(32) && x % Pow2(n) == t
    ensures x' % Pow2(n) == t
  {
    Shed(x, shed, n, x');
  }

  lemma ScaledRemainder(v: nat, k: nat, n: nat, r: nat, g: nat, t: nat)
    requires v % Pow2(k) == r && g < Pow2(n) && t == r * Pow2(n) + g
    ensures (v * Pow2(n) + g) % Pow2(k + n) == t
  {
    Pow2Add(k, n);
    ScaleUpTo(v, Pow2(k), Pow2(n), r, g, Pow2(k + n), t);
  }

  lemma ScaleUpTo(v: nat, p: nat, n: nat, r: nat, g: nat, m: nat, t: nat)
    requires p > 0 && n > 0 && v % p == r && g < n && m == p * n && m > 0 && t == r * n + g
    ensures (v * n + g) % m == t
  {
    ScaleUp(v, p, n, r, g);
  }

  lemma Shed(x: nat, shed: nat, n: nat, x': nat)
    requires shed == 0 || n <= 32
    requires x' == x - shed * Pow2(32)
    ensures x' % Pow2(n) == x % Pow2(n)
  {
    if shed > 0 {
      ModPow2(x', shed, n, 32);
    }
  }

  /** The top `k` pending bits, and what is pending once they are taken. */
  lemma TakeTop(value: nat, bits: seq<bool>, k: nat)
    requires Pending(value, bits) && k <= |bits|
    ensures (value / Pow2(|bits| - k)) % Pow2(k) == IntOf(bits[..k])
    ensures Pending(value, bits[k..])
  {
    var a, b := bits[..k], bits[k..];
    assert bits == a + b;
    IntOfAppend(a, b);
    IntOfBound(a);
    IntOfBound(b);
    Pow2Add(k, |bits| - k);
    ScaleDown(value, Pow2(k), Pow2(|bits| - k), IntOf(a), IntOf(b));
  }

  /** The last group: the pending bits moved up and filled with zeros. */
  lemma FillUp(value: nat, bits: seq<bool>, k: nat, shed: nat, value': nat)
    requires Pending(value, bits) && |bits| <= k <= 32
    requires value' == value * Pow2(k - |bits|) - shed * Pow2(32)
    ensures value' % Pow2(k) == IntOf(bits + Zeros(k - |bits|))
  {
    var p := k - |bits|;
    IntOfAppend(bits, Zeros(p));
    IntOfZeros(p);
    Pow2Add(|bits|, p);
    ScaleUp(value, Pow2(|bits|), Pow2(p), IntOf(bits), 0);
    Shed(value * Pow2(p), shed, k, value');
  }
}
