/** Powers of two and the division facts the bit-level proofs need. */
module Numbers {

  function Pow2(n: nat): (p: nat)
    ensures p > 0
  {
    if n == 0 then 1 else 2 * Pow2(n - 1)
  }

  lemma {:induction false} Pow2Add(m: nat, n: nat)
    ensures Pow2(m + n) == Pow2(m) * Pow2(n)
  {
    if m > 0 {
      Pow2Add(m - 1, n);
      assert 2 * (Pow2(m - 1) * Pow2(n)) == 2 * Pow2(m - 1) * Pow2(n);
    }
  }

  lemma MulMonotone(a: nat, b: nat, c: nat)
    requires a <= b
    ensures a * c <= b * c
  {}

  /** Quotient and remainder are unique. */
  lemma DivMod(x: int, d: nat, q: int, r: nat)
    requires d > 0 && r < d && x == q * d + r
    ensures x / d == q && x % d == r
  {
    var q', r' := x / d, x % d;
    assert (q - q') * d == r' - r;
    if q > q' {
      MulMonotone(1, q - q', d);
    } else if q < q' {
      assert (q' - q) * d == r - r';
      MulMonotone(1, q' - q, d);
    }
  }

  /** Taking one divisor away takes one from the quotient. */
  lemma DivStep(n: nat, k: nat)
    requires 0 < k <= n
    ensures n / k == (n - k) / k + 1 && n % k == (n - k) % k
  {
    DivMod(n, k, (n - k) / k + 1, (n - k) % k);
  }

  lemma MulAssoc(a: int, b: int, c: int)
    ensures a * (b * c) == (a * b) * c
  {}

  lemma MulAdd(a: int, b: int, c: int)
    ensures (a + b) * c == a * c + b * c
  {}

  /** Adding a multiple of `2^m` changes nothing below bit `n <= m`. */
  lemma ModPow2(x: int, q: int, n: nat, m: nat)
    requires n <= m
    ensures (x + q * Pow2(m)) % Pow2(n) == x % Pow2(n)
  {
    Pow2Add(m - n, n);
    AddMultiple(x, q * Pow2(m - n), Pow2(n));
    MulAssoc(q, Pow2(m - n), Pow2(n));
  }

  lemma AddMultiple(x: int, k: int, d: nat)
    requires d > 0
    ensures (x + k * d) % d == x % d && (x + k * d) / d == x / d + k
  {
    MulAdd(x / d, k, d);
    assert x == (x / d) * d + x % d;
    DivMod(x + k * d, d, x / d + k, x % d);
  }

  /** Scaling a number up and adding a small one scales its remainder in the same way. */
  lemma ScaleUp(v: nat, p: nat, n: nat, r: nat, g: nat)
    requires p > 0 && n > 0 && v % p == r && g < n
    ensures p * n > 0 && (v * n + g) % (p * n) == r * n + g
  {
    var q := v / p;
    assert v == q * p + r;
    MulAdd(q * p, r, n);
    MulAssoc(q, p, n);
    MulMonotone(r + 1, p, n);
    MulAdd(r, 1, n);
    DivMod(v * n + g, p * n, q, r * n + g);
  }

  /** A remainder modulo `k * m`, split into its high and its low part. */
  lemma ScaleDown(v: nat, k: nat, m: nat, a: nat, b: nat)
    requires a < k && b < m && k * m > 0 && v % (k * m) == a * m + b
    ensures (v / m) % k == a && v % m == b
  {
    var q := v / (k * m);
    assert v == q * (k * m) + (a * m + b);
    MulAssoc(q, k, m);
    MulAdd(q * k, a, m);
    DivMod(v, m, q * k + a, b);
    DivMod(v / m, k, q, a);
  }
}
