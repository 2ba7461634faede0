/** The put that makes a map a bounded cache: the key moves to the young end, the oldest leave past a limit. */
module BoundedMap {
  import opened OrderedMaps

  function LastOf<T>(s: seq<T>, n: nat): (r: seq<T>)
    ensures |r| <= n && |r| <= |s|
  {
    if |s| > n then s[|s| - n..] else s
  }

  /** The key moves, or comes in, at the young end; the oldest leave while there are too many. */
  function Put<K(==), V>(entries: seq<(K, V)>, key: K, value: V, limit: nat): seq<(K, V)>
  {
    LastOf(Without(entries, key) + [(key, value)], limit)
  }

  /** The loop that drops the oldest entries. */
  method DropOldest<K(==), V>(cache: OrderedMap<K, V>, limit: nat)
    requires cache.Valid()
    modifies cache
    ensures cache.Valid() && cache.entries == LastOf(old(cache.entries), limit)
  {
    ghost var full := cache.entries;
    ghost var dropped: nat := 0;
    while |cache.entries| > limit
      invariant cache.Valid()
      invariant dropped <= |full| && cache.entries == full[dropped..]
      invariant dropped > 0 ==> |full| - dropped >= limit
      decreases |cache.entries|
    {
      WithoutFirst(cache.entries);
      cache.Delete(cache.entries[0].0);
      dropped := dropped + 1;
    }
  }

  method BoundedPut<K(==), V>(cache: OrderedMap<K, V>, key: K, value: V, limit: nat)
    requires cache.Valid()
    modifies cache
    ensures cache.Valid() && cache.entries == Put(old(cache.entries), key, value, limit)
  {
    cache.Delete(key);
    WithoutLosesKey(old(cache.entries), key);
    UpsertAbsent(cache.entries, key, value);
    cache.Set(key, value);
    DropOldest(cache, limit);
  }

  lemma {:induction false} FindLast<K, V>(front: seq<(K, V)>, key: K, value: V)
    requires forall e :: e in front ==> e.0 != key
    ensures Find(front + [(key, value)], key).Some? && Find(front + [(key, value)], key).value == value
  {
    var all := front + [(key, value)];
    if front != [] {
      assert all[0] == front[0] && front[0] in front && all[1..] == front[1..] + [(key, value)];
      FindLast(front[1..], key, value);
    }
  }

  /** What was put is found, if there is room for anything. */
  lemma PutIsFound<K, V>(entries: seq<(K, V)>, key: K, value: V, limit: nat)
    requires limit > 0
    ensures Find(Put(entries, key, value, limit), key).Some?
    ensures Find(Put(entries, key, value, limit), key).value == value
  {
    var front := Without(entries, key);
    var all := front + [(key, value)];
    var n := if |all| > limit then |all| - limit else 0;
    assert Put(entries, key, value, limit) == front[n..] + [(key, value)];
    FindLast(front[n..], key, value);
  }

  // ---------------------------------------------------------------- recency

  /** The distinct keys used, in the order of their last use. */
  function ByRecency<K(==)>(uses: seq<K>): seq<K>
  {
    if uses == [] then []
    else
      var last := uses[|uses| - 1];
      DropKey(ByRecency(uses[..|uses| - 1]), last) + [last]
  }

  function LastUse<K(==)>(uses: seq<K>, key: K): (i: nat)
    requires key in uses
    ensures i < |uses| && uses[i] == key
    ensures forall j :: i < j < |uses| ==> uses[j] != key
  {
    if uses[|uses| - 1] == key then |uses| - 1 else LastUse(uses[..|uses| - 1], key)
  }

  /** `ByRecency` is what its name says: each used key once, sorted by last use. */
  lemma {:induction false} ByRecencyExact<K>(uses: seq<K>)
    ensures var r := ByRecency(uses);
      && Distinct(r)
      && (forall x :: x in r <==> x in uses)
      && (forall i, j :: 0 <= i < j < |r| ==> LastUse(uses, r[i]) < LastUse(uses, r[j]))
  {
    if uses != [] {
      var n := |uses| - 1;
      var last := uses[n];
      var before := uses[..n];
      ByRecencyExact(before);
      assert uses == before + [last];
      DropKeyKeepsDistinct(ByRecency(before), last);
      var r := ByRecency(uses);
      forall i, j | 0 <= i < j < |r| ensures LastUse(uses, r[i]) < LastUse(uses, r[j]) {
        assert r[i] in DropKey(ByRecency(before), last);
        if j < |r| - 1 {
          DropKeyKeepsOrder(ByRecency(before), last, i, j);
        }
      }
    }
  }

  lemma {:induction false} DropKeyKeepsOrder<K>(keys: seq<K>, key: K, i: nat, j: nat)
    requires i < j < |DropKey(keys, key)|
    ensures exists a, b :: 0 <= a < b < |keys| && keys[a] == DropKey(keys, key)[i] && keys[b] == DropKey(keys, key)[j]
  {
    var r := DropKey(keys, key);
    if keys[0] == key {
      DropKeyKeepsOrder(keys[1..], key, i, j);
      var a, b :| 0 <= a < b < |keys[1..]| && keys[1..][a] == r[i] && keys[1..][b] == r[j];
      assert keys[a + 1] == r[i] && keys[b + 1] == r[j];
    } else if i == 0 {
      assert r[j] in DropKey(keys[1..], key);
      var b :| 0 <= b < |keys[1..]| && keys[1..][b] == r[j];
      assert keys[0] == r[i] && keys[b + 1] == r[j];
    } else {
      DropKeyKeepsOrder(keys[1..], key, i - 1, j - 1);
      var a, b :| 0 <= a < b < |keys[1..]| && keys[1..][a] == r[i] && keys[1..][b] == r[j];
      assert keys[a + 1] == r[i] && keys[b + 1] == r[j];
    }
  }

  lemma LastOfKeys<K, V>(entries: seq<(K, V)>, n: nat)
    ensures Keys(LastOf(entries, n)) == LastOf(Keys(entries), n)
  {}

  lemma LastOfDropYoung<K>(dropped: seq<K>, young: seq<K>, key: K, n: nat)
    requires n > 0 && |young| == n && Distinct(dropped + young) && key in young
    ensures LastOf(DropKey(dropped + young, key) + [key], n) == DropKey(young, key) + [key]
  {
    var keys := dropped + young;
    assert forall i :: 0 <= i < |young| ==> young[i] == keys[|dropped| + i];
    assert forall i :: 0 <= i < |dropped| ==> dropped[i] == keys[i];
    assert Distinct(young);
    DropKeyAppend(dropped, young, key);
    DropKeyLength(young, key);
    DropKeyAbsent(dropped, key);
  }

  lemma LastOfDropOld<K>(dropped: seq<K>, young: seq<K>, key: K, n: nat)
    requires n > 0 && |young| == n && key !in young
    ensures LastOf(DropKey(dropped + young, key) + [key], n) == young[1..] + [key]
  {
    DropKeyAppend(dropped, young, key);
    DropKeyAbsent(young, key);
    assert LastOf(DropKey(dropped, key) + young + [key], n) == young[1..] + [key];
  }

  /** Keeping only the youngest `n` at every use gives the youngest `n` of all uses. */
  lemma LastOfDrop<K>(keys: seq<K>, key: K, n: nat)
    requires n > 0 && Distinct(keys)
    ensures LastOf(DropKey(LastOf(keys, n), key) + [key], n) == LastOf(DropKey(keys, key) + [key], n)
  {
    if |keys| > n {
      var dropped, young := keys[..|keys| - n], keys[|keys| - n..];
      assert keys == dropped + young;
      if key in young {
        LastOfDropYoung(dropped, young, key, n);
        LastOfDropYoung([], young, key, n);
        assert [] + young == young;
      } else {
        LastOfDropOld(dropped, young, key, n);
        LastOfDropOld([], young, key, n);
        assert [] + young == young;
      }
    }
  }

  /** After a put the keys are the youngest of those used, this use included. */
  lemma PutKeepsYoungest<K, V>(entries: seq<(K, V)>, uses: seq<K>, key: K, value: V, limit: nat)
    requires limit > 0 && Keys(entries) == LastOf(ByRecency(uses), limit)
    ensures Keys(Put(entries, key, value, limit)) == LastOf(ByRecency(uses + [key]), limit)
  {
    var all := Without(entries, key) + [(key, value)];
    KeysWithout(entries, key);
    assert Keys(all) == DropKey(Keys(entries), key) + [key];
    LastOfKeys(all, limit);
    ByRecencyExact(uses);
    LastOfDrop(ByRecency(uses), key, limit);
    assert (uses + [key])[..|uses|] == uses;
  }
}
