/**
 The hash chain of the audit log, as a value: what links a record to the one before it, and why
 tampering shows.

 The record store and the issue store differ in a tag, a key and a rendering; `Schema` holds the
 three. `sha` is the hex digest of a text; `json` is `JSON.stringify`.
 */
module AuditChain {
  datatype Schema<!C> = Schema(tag: string, key: C -> string, json: C -> string)

  datatype Record<C> = Record(item: C, atMs: int, previousHash: string, recordHash: string)

  type Sha = string -> string

  const NUL := 0 as char

  // ---------------------------------------------------------------- hashing

  function Digits(n: nat): (s: string)
    ensures |s| > 0
    ensures forall c :: c in s ==> '0' <= c <= '9'
  {
    var last := [('0' as int + n % 10) as char];
    if n < 10 then last else Digits(n / 10) + last
  }

  /** `String(n)` of an integer. */
  function Decimal(n: int): string
  {
    if n < 0 then "-" + Digits(-n) else Digits(n)
  }

  function Preimage<C>(sch: Schema<C>, item: C, atMs: int, previousHash: string): string
  {
    sch.tag + [NUL] + previousHash + [NUL] + Decimal(atMs) + [NUL] + sch.json(item)
  }

  function HashRecord<C>(sch: Schema<C>, sha: Sha, item: C, atMs: int, previousHash: string): string
  {
    sha(Preimage(sch, item, atMs, previousHash))
  }

  /** The hash new records link to; the empty text before the first. */
  function Head<C>(records: seq<Record<C>>): string
  {
    if records == [] then "" else records[|records| - 1].recordHash
  }

  /** Every record links to the one before it and carries its own hash. */
  predicate Chained<C>(sch: Schema<C>, sha: Sha, records: seq<Record<C>>)
  {
    forall i :: 0 <= i < |records| ==> Linked(sch, sha, records, i)
  }

  predicate Linked<C>(sch: Schema<C>, sha: Sha, records: seq<Record<C>>, i: nat)
    requires i < |records|
  {
    && records[i].previousHash == Head(records[..i])
    && records[i].recordHash == HashRecord(sch, sha, records[i].item, records[i].atMs, records[i].previousHash)
  }

  // ---------------------------------------------------------------- tamper evidence

  ghost predicate CollisionFree(sha: Sha)
  {
    && (forall a, b :: sha(a) == sha(b) ==> a == b)
    && (forall a :: sha(a) != "" && NUL !in sha(a))
  }

  ghost predicate Faithful<C(!new)>(sch: Schema<C>)
  {
    forall a, b :: sch.json(a) == sch.json(b) ==> a == b
  }

  /** What a decimal text stands for. */
  function Reads(s: string): int
  {
    if s == "" then 0
    else if s[0] == '-' then -Reads(s[1..])
    else Reads(s[..|s| - 1]) * 10 + (s[|s| - 1] as int - '0' as int)
  }

  lemma {:induction false} DigitsRead(n: nat)
    ensures Reads(Digits(n)) == n
    ensures Digits(n)[0] == '0' ==> n == 0
  {
    var s := Digits(n);
    assert s[0] in s;
    if n >= 10 {
      DigitsRead(n / 10);
      assert s[..|s| - 1] == Digits(n / 10);
    } else {
      assert s[..0] == "";
    }
  }

  /** A number is written in decimal, without leading zeros. */
  lemma DecimalReads(n: int)
    ensures Reads(Decimal(n)) == n
    ensures Decimal(n)[0] == '0' ==> n == 0
  {
    DigitsRead(if n < 0 then -n else n);
    if n < 0 {
      assert Decimal(n)[1..] == Digits(-n);
    }
  }

  lemma {:induction false} DigitsInjective(m: nat, n: nat)
    requires Digits(m) == Digits(n)
    ensures m == n
  {
    var a, b := Digits(m), Digits(n);
    assert a[|a| - 1] == ('0' as int + m % 10) as char && b[|b| - 1] == ('0' as int + n % 10) as char;
    if m >= 10 && n >= 10 {
      assert a[..|a| - 1] == Digits(m / 10) && b[..|b| - 1] == Digits(n / 10);
      DigitsInjective(m / 10, n / 10);
    }
  }

  lemma DecimalSign(n: int)
    ensures Decimal(n) != "" && (Decimal(n)[0] == '-' <==> n < 0)
  {
    var first := Digits(if n < 0 then -n else n)[0];
    assert first in Digits(if n < 0 then -n else n);
  }

  lemma DecimalInjective(m: int, n: int)
    requires Decimal(m) == Decimal(n)
    ensures m == n
  {
    DecimalSign(m);
    DecimalSign(n);
    if m < 0 && n < 0 {
      assert Decimal(m)[1..] == Digits(-m) && Decimal(n)[1..] == Digits(-n);
      DigitsInjective(-m, -n);
    } else if m >= 0 && n >= 0 {
      DigitsInjective(m, n);
    }
  }

  lemma DecimalNoNul(n: int)
    ensures NUL !in Decimal(n)
  {}

  lemma NotLonger(a: string, b: string, c: string, d: string)
    requires NUL !in b
    requires a + [NUL] + c == b + [NUL] + d
    ensures |b| <= |a|
  {
    var s := b + [NUL] + d;
    assert s[|a|] == (a + [NUL] + c)[|a|] == NUL;
    assert forall i :: 0 <= i < |b| ==> s[i] == b[i];
  }

  /** Texts without NUL before equal NUL-started rests are equal, and so are the rests. */
  lemma SplitAtNul(a: string, b: string, c: string, d: string)
    requires NUL !in a && NUL !in b
    requires a + [NUL] + c == b + [NUL] + d
    ensures a == b && c == d
  {
    NotLonger(a, b, c, d);
    NotLonger(b, a, d, c);
    var s := a + [NUL] + c;
    assert a == s[..|a|] && b == (b + [NUL] + d)[..|b|];
    assert c == s[|a| + 1..] && d == (b + [NUL] + d)[|b| + 1..];
  }

  lemma TimeSplits(t: int, u: int, c: string, d: string)
    requires Decimal(t) + [NUL] + c == Decimal(u) + [NUL] + d
    ensures t == u && c == d
  {
    DecimalNoNul(t);
    DecimalNoNul(u);
    SplitAtNul(Decimal(t), Decimal(u), c, d);
    DecimalInjective(t, u);
  }

  lemma TagSplits(tag: string, a: string, b: string, c: string, d: string)
    requires tag + [NUL] + a + [NUL] + b == tag + [NUL] + c + [NUL] + d
    ensures a + [NUL] + b == c + [NUL] + d
  {
    var s := tag + [NUL] + a + [NUL] + b;
    assert s[|tag| + 1..] == a + [NUL] + b;
    assert (tag + [NUL] + c + [NUL] + d)[|tag| + 1..] == c + [NUL] + d;
  }

  lemma PreimageParts<C>(sch: Schema<C>, item: C, atMs: int, previousHash: string)
    ensures Preimage(sch, item, atMs, previousHash) ==
      sch.tag + [NUL] + previousHash + [NUL] + (Decimal(atMs) + [NUL] + sch.json(item))
  {
    Regroup(sch.tag + [NUL] + previousHash + [NUL], Decimal(atMs), sch.json(item));
  }

  lemma Regroup(a: string, b: string, c: string)
    ensures a + b + [NUL] + c == a + (b + [NUL] + c)
  {}

  /** The NUL separators let the preimage be taken apart in one way only. */
  lemma PreimageSplits<C(!new)>(sch: Schema<C>, x: C, y: C, t: int, u: int, p: string, q: string)
    requires Faithful(sch) && NUL !in p && NUL !in q
    requires Preimage(sch, x, t, p) == Preimage(sch, y, u, q)
    ensures x == y && t == u && p == q
  {
    var restP := Decimal(t) + [NUL] + sch.json(x);
    var restQ := Decimal(u) + [NUL] + sch.json(y);
    PreimageParts(sch, x, t, p);
    PreimageParts(sch, y, u, q);
    TagSplits(sch.tag, p, restP, q, restQ);
    SplitAtNul(p, q, restP, restQ);
    TimeSplits(t, u, sch.json(x), sch.json(y));
  }

  lemma HeadNoNul<C>(sch: Schema<C>, sha: Sha, records: seq<Record<C>>)
    requires CollisionFree(sha) && Chained(sch, sha, records)
    ensures NUL !in Head(records) && (Head(records) == "" <==> records == [])
  {
    if records != [] {
      assert Linked(sch, sha, records, |records| - 1);
    }
  }

  lemma ChainedPrefix<C>(sch: Schema<C>, sha: Sha, records: seq<Record<C>>, n: nat)
    requires Chained(sch, sha, records) && n <= |records|
    ensures Chained(sch, sha, records[..n])
  {
    forall i | 0 <= i < n ensures Linked(sch, sha, records[..n], i) {
      assert Linked(sch, sha, records, i);
      assert records[..n][..i] == records[..i];
    }
  }

  /** The last record of a chain, and the chain before it. */
  lemma LastLink<C>(sch: Schema<C>, sha: Sha, records: seq<Record<C>>)
    requires CollisionFree(sha) && Chained(sch, sha, records) && records != []
    ensures var m := |records| - 1;
      var r := records[m];
      && Chained(sch, sha, records[..m])
      && r.previousHash == Head(records[..m]) && NUL !in r.previousHash
      && r.recordHash == Head(records) == sha(Preimage(sch, r.item, r.atMs, r.previousHash))
      && records == records[..m] + [r]
  {
    var m := |records| - 1;
    assert Linked(sch, sha, records, m);
    ChainedPrefix(sch, sha, records, m);
    HeadNoNul(sch, sha, records[..m]);
  }

  /** Tamper evidence: two chains with the same head are the same chain, record for record. */
  lemma {:induction false} SameHeadSameChain<C(!new)>(sch: Schema<C>, sha: Sha, a: seq<Record<C>>, b: seq<Record<C>>)
    requires CollisionFree(sha) && Faithful(sch)
    requires Chained(sch, sha, a) && Chained(sch, sha, b) && Head(a) == Head(b)
    ensures a == b
    decreases |a|
  {
    HeadNoNul(sch, sha, a);
    HeadNoNul(sch, sha, b);
    if a != [] {
      var m, n := |a| - 1, |b| - 1;
      var x, y := a[m], b[n];
      LastLink(sch, sha, a);
      LastLink(sch, sha, b);
      PreimageSplits(sch, x.item, y.item, x.atMs, y.atMs, x.previousHash, y.previousHash);
      SameHeadSameChain(sch, sha, a[..m], b[..n]);
    }
  }

  /** The head is needed: records dropped from the end leave a chain that is accepted, with another head. */
  lemma TruncationAccepted<C(!new)>(sch: Schema<C>, sha: Sha, records: seq<Record<C>>, n: nat)
    requires CollisionFree(sha) && Faithful(sch)
    requires Chained(sch, sha, records) && n < |records|
    ensures Chained(sch, sha, records[..n]) && Head(records[..n]) != Head(records)
  {
    ChainedPrefix(sch, sha, records, n);
    if Head(records[..n]) == Head(records) {
      SameHeadSameChain(sch, sha, records[..n], records);
      assert false;
    }
  }
}
