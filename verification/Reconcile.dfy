/** Reconciliation: a device summarises what it holds, its peer offers what the summary lacks. */
module Reconcile {
  import opened Wrappers
  import opened JsonNumbers
  import opened Mesh
  import opened Bloom

  predicate Unexpired(r: Row, nowMs: int)
  {
    Less(Some(nowMs as real), Number(r.expiresAtMs))
  }

  function Fresh(rows: seq<Row>, nowMs: int): seq<Row>
  {
    if rows == [] then []
    else (if Unexpired(rows[0], nowMs) then [rows[0]] else []) + Fresh(rows[1..], nowMs)
  }

  function Ids(rows: seq<Row>): (ids: seq<string>)
    ensures |ids| == |rows|
  {
    seq(|rows|, i requires 0 <= i < |rows| => rows[i].contentId)
  }

  /** The identifiers a summary stands for: the rows that have not expired, and any others given. */
  function Summarised(store: Store, nowMs: int, additional: seq<string>): seq<string>
  {
    Ids(Fresh(store.List(), nowMs)) + additional
  }

  function Uncovered(hash: SeededHash, bits: Bits, rows: seq<Row>): seq<Row>
  {
    if rows == [] then []
    else (if Has(hash, bits, rows[0].contentId) then [] else [rows[0]]) + Uncovered(hash, bits, rows[1..])
  }

  function AtMost<T>(s: seq<T>, n: nat): seq<T>
  {
    if |s| <= n then s else s[..n]
  }

  function Missing(hash: SeededHash, bits: Bits, store: Store): seq<Row>
  {
    AtMost(Uncovered(hash, bits, store.List()), MAX_OFFERED)
  }

  method Summary(hash: SeededHash, store: MeshStore, nowMs: int, additional: seq<string>)
    returns (encoded: string, count: nat)
    ensures StandsFor(hash, encoded, Summarised(store.Contents(), nowMs, additional))
    ensures count == |Summarised(store.Contents(), nowMs, additional)|
  {
    var ids := Summarised(store.Contents(), nowMs, additional);
    encoded := Summarise(hash, ids);
    count := |ids|;
  }

  /** `None` is the error for a summary that does not decode to 256 bytes. */
  method MissingForPeer(hash: SeededHash, store: MeshStore, encoded: string) returns (r: Option<seq<Row>>)
    ensures match ReceivedBits(encoded)
      case None => r.None?
      case Some(bits) => r == Some(Missing(hash, bits, store.Contents()))
  {
    var remote := Received(encoded);
    if remote.None? {
      return None;
    }
    var missing := NotContained(hash, remote.value, store.Contents().List());
    r := Some(AtMost(missing, MAX_OFFERED));
  }

  /** The `filter` over the rows of the store. */
  method NotContained(hash: SeededHash, remote: MeshBloom, rows: seq<Row>) returns (missing: seq<Row>)
    requires remote.Valid()
    ensures missing == Uncovered(hash, remote.bits[..], rows)
  {
    missing := [];
    ghost var bits: Bits := remote.bits[..];
    ghost var whole := Uncovered(hash, bits, rows);
    for i := 0 to |rows|
      invariant remote.bits[..] == bits
      invariant whole == missing + Uncovered(hash, bits, rows[i..])
    {
      UncoveredStep(hash, bits, rows, i, missing);
      var known := remote.Contains(hash, rows[i].contentId);
      if !known {
        missing := missing + [rows[i]];
      }
    }
    assert missing + [] == missing;
  }

  lemma UncoveredStep(hash: SeededHash, bits: Bits, rows: seq<Row>, i: nat, missing: seq<Row>)
    requires i < |rows|
    ensures missing + Uncovered(hash, bits, rows[i..]) ==
      (if Has(hash, bits, rows[i].contentId) then missing else missing + [rows[i]])
      + Uncovered(hash, bits, rows[i + 1..])
  {
    assert rows[i..][1..] == rows[i + 1..];
  }

  predicate Subsequence<T(==)>(a: seq<T>, b: seq<T>)
  {
    if a == [] then true
    else if b == [] then false
    else if a[0] == b[0] then Subsequence(a[1..], b[1..])
    else Subsequence(a, b[1..])
  }

  lemma {:induction false} SubsequenceSkip<T>(a: seq<T>, b: seq<T>, x: T)
    requires Subsequence(a, b)
    ensures Subsequence(a, [x] + b)
    ensures a != [] ==> Subsequence(a[1..], b)
    decreases |b|
  {
    assert ([x] + b)[1..] == b;
    if a != [] {
      if a[0] == b[0] {
        assert b == [b[0]] + b[1..];
        SubsequenceSkip(a[1..], b[1..], b[0]);
      } else {
        SubsequenceSkip(a, b[1..], b[0]);
        assert b == [b[0]] + b[1..];
        SubsequenceSkip(a[1..], b[1..], b[0]);
      }
    }
  }

  lemma {:induction false} SubsequencePrefix<T>(a: seq<T>, b: seq<T>, n: nat)
    requires n <= |a| && Subsequence(a, b)
    ensures Subsequence(a[..n], b)
    decreases |b|
  {
    if n > 0 {
      if a[0] == b[0] {
        SubsequencePrefix(a[1..], b[1..], n - 1);
        assert a[..n][1..] == a[1..][..n - 1];
      } else {
        SubsequencePrefix(a, b[1..], n);
      }
    }
  }

  lemma {:induction false} UncoveredExact(hash: SeededHash, bits: Bits, rows: seq<Row>)
    ensures forall r :: r in Uncovered(hash, bits, rows) <==> r in rows && !Has(hash, bits, r.contentId)
    ensures Subsequence(Uncovered(hash, bits, rows), rows)
  {
    if rows != [] {
      UncoveredExact(hash, bits, rows[1..]);
      assert rows == [rows[0]] + rows[1..];
      var rest := Uncovered(hash, bits, rows[1..]);
      if Has(hash, bits, rows[0].contentId) {
        assert Uncovered(hash, bits, rows) == rest;
        SubsequenceSkip(rest, rows[1..], rows[0]);
      } else {
        assert ([rows[0]] + rest)[1..] == rest;
      }
    }
  }

  lemma {:induction false} FreshExact(rows: seq<Row>, nowMs: int)
    ensures forall r :: r in Fresh(rows, nowMs) <==> r in rows && Unexpired(r, nowMs)
  {
    if rows != [] {
      FreshExact(rows[1..], nowMs);
      assert rows == [rows[0]] + rows[1..];
    }
  }

  /**
   A peer that answers a device's summary, having received it as text, offers at most 128 rows, in
   the order of its own store, none of them one the device holds unexpired or named itself; it
   leaves out only rows whose positions the summary covers, or everything past the 128th.
   */
  lemma NothingResent(hash: SeededHash, device: Store, nowMs: int, additional: seq<string>, encoded: string,
                      peer: Store)
    requires StandsFor(hash, encoded, Summarised(device, nowMs, additional))
    ensures var offered := Missing(hash, ReceivedBits(encoded).value, peer);
      && |offered| <= 128
      && Subsequence(offered, peer.List())
      && (forall r :: r in offered ==> r.contentId !in additional)
      && (forall q :: q in device.List() && Number(q.expiresAtMs).Some? && Number(q.expiresAtMs).value > nowMs as real
            ==> forall r :: r in offered ==> r.contentId != q.contentId)
      && (|offered| < 128 ==> forall r :: r in peer.List() && r !in offered ==>
        Positions(hash, r.contentId) <= AllPositions(hash, Summarised(device, nowMs, additional)))
  {
    var ids, bits := Summarised(device, nowMs, additional), ReceivedBits(encoded).value;
    var all := Uncovered(hash, bits, peer.List());
    UncoveredExact(hash, bits, peer.List());
    SubsequencePrefix(all, peer.List(), |Missing(hash, bits, peer)|);
    assert Missing(hash, bits, peer) == all[..|Missing(hash, bits, peer)|];
    forall r | r in peer.List()
      ensures r.contentId in ids ==> Has(hash, bits, r.contentId)
      ensures Has(hash, bits, r.contentId) <==> Positions(hash, r.contentId) <= AllPositions(hash, ids)
    {
      SummaryCovers(hash, ids, encoded, r.contentId);
    }
    FreshIdsSummarised(device, nowMs, additional);
  }

  lemma FreshIdsSummarised(device: Store, nowMs: int, additional: seq<string>)
    ensures forall q :: q in device.List() && Unexpired(q, nowMs) ==>
      q.contentId in Summarised(device, nowMs, additional)
    ensures forall id :: id in additional ==> id in Summarised(device, nowMs, additional)
  {
    var current := Fresh(device.List(), nowMs);
    FreshExact(device.List(), nowMs);
    forall q | q in current ensures q.contentId in Ids(current) {
      var i :| 0 <= i < |current| && current[i] == q;
      assert Ids(current)[i] == q.contentId;
    }
  }
}
