/** JavaScript's `Map`: entries in the order their keys were first set. */
module OrderedMaps {
  import opened Wrappers

  function Without<K(==), V>(entries: seq<(K, V)>, key: K): (r: seq<(K, V)>)
    ensures forall e :: e in r ==> e in entries && e.0 != key
    ensures forall e :: e in entries && e.0 != key ==> e in r
    ensures |r| <= |entries|
  {
    if entries == [] then []
    else if entries[0].0 == key then Without(entries[1..], key)
    else [entries[0]] + Without(entries[1..], key)
  }

  function Find<K(==), V>(entries: seq<(K, V)>, key: K): (r: Option<V>)
    ensures r.Some? ==> (key, r.value) in entries
    ensures r.None? <==> forall e :: e in entries ==> e.0 != key
  {
    if entries == [] then None
    else if entries[0].0 == key then Some(entries[0].1)
    else Find(entries[1..], key)
  }

  /** Setting a key that is there keeps its place; a new one goes last. */
  function Upsert<K(==), V>(entries: seq<(K, V)>, key: K, value: V): seq<(K, V)>
  {
    if entries == [] then [(key, value)]
    else if entries[0].0 == key then [(key, value)] + entries[1..]
    else [entries[0]] + Upsert(entries[1..], key, value)
  }

  function Keys<K, V>(entries: seq<(K, V)>): (r: seq<K>)
    ensures |r| == |entries|
  {
    seq(|entries|, i requires 0 <= i < |entries| => entries[i].0)
  }

  predicate Distinct<T(==)>(s: seq<T>)
  {
    forall i, j :: 0 <= i < j < |s| ==> s[i] != s[j]
  }

  /** A JavaScript `Map`. */
  class OrderedMap<K(==), V> {
    var entries: seq<(K, V)>

    constructor ()
      ensures entries == []
    {
      entries := [];
    }

    ghost predicate Valid()
      reads this
    {
      Distinct(Keys(entries))
    }

    function Get(key: K): Option<V>
      reads this
    {
      Find(entries, key)
    }

    method Delete(key: K)
      requires Valid()
      modifies this
      ensures Valid() && entries == Without(old(entries), key)
    {
      WithoutKeepsDistinct(entries, key);
      entries := Without(entries, key);
    }

    method Set(key: K, value: V)
      requires Valid()
      modifies this
      ensures Valid() && entries == Upsert(old(entries), key, value)
    {
      UpsertKeys(entries, key, value);
      entries := Upsert(entries, key, value);
    }
  }

  // ---------------------------------------------------------------- keys

  function DropKey<K(==)>(keys: seq<K>, key: K): (r: seq<K>)
    ensures forall x :: x in r ==> x in keys && x != key
    ensures forall x :: x in keys && x != key ==> x in r
  {
    if keys == [] then []
    else if keys[0] == key then DropKey(keys[1..], key)
    else [keys[0]] + DropKey(keys[1..], key)
  }

  lemma {:induction false} KeysWithout<K, V>(entries: seq<(K, V)>, key: K)
    ensures Keys(Without(entries, key)) == DropKey(Keys(entries), key)
  {
    if entries != [] {
      KeysWithout(entries[1..], key);
      assert Keys(entries)[1..] == Keys(entries[1..]);
    }
  }

  lemma {:induction false} DropKeyKeepsDistinct<K>(keys: seq<K>, key: K)
    requires Distinct(keys)
    ensures Distinct(DropKey(keys, key))
  {
    if keys != [] {
      DropKeyKeepsDistinct(keys[1..], key);
      var rest := DropKey(keys[1..], key);
      assert keys[0] !in rest;
      assert Distinct([keys[0]] + rest);
    }
  }

  lemma WithoutKeepsDistinct<K, V>(entries: seq<(K, V)>, key: K)
    requires Distinct(Keys(entries))
    ensures Distinct(Keys(Without(entries, key)))
  {
    KeysWithout(entries, key);
    DropKeyKeepsDistinct(Keys(entries), key);
  }

  lemma WithoutLosesKey<K, V>(entries: seq<(K, V)>, key: K)
    ensures key !in Keys(Without(entries, key))
  {
    KeysWithout(entries, key);
  }

  lemma {:induction false} WithoutAbsent<K, V>(entries: seq<(K, V)>, key: K)
    requires key !in Keys(entries)
    ensures Without(entries, key) == entries
  {
    if entries != [] {
      assert Keys(entries)[0] == entries[0].0;
      assert Keys(entries)[1..] == Keys(entries[1..]);
      WithoutAbsent(entries[1..], key);
    }
  }

  lemma WithoutFirst<K, V>(entries: seq<(K, V)>)
    requires entries != [] && Distinct(Keys(entries))
    ensures Without(entries, entries[0].0) == entries[1..]
  {
    forall i | 0 <= i < |entries| - 1 ensures Keys(entries[1..])[i] != entries[0].0 {
      assert Keys(entries[1..])[i] == Keys(entries)[i + 1] && Keys(entries)[0] == entries[0].0;
    }
    WithoutAbsent(entries[1..], entries[0].0);
  }

  lemma {:induction false} DropKeyAbsent<K>(keys: seq<K>, key: K)
    requires key !in keys
    ensures DropKey(keys, key) == keys
  {
    if keys != [] {
      DropKeyAbsent(keys[1..], key);
    }
  }

  lemma {:induction false} DropKeyAppend<K>(a: seq<K>, b: seq<K>, key: K)
    ensures DropKey(a + b, key) == DropKey(a, key) + DropKey(b, key)
  {
    if a == [] {
      assert a + b == b;
    } else {
      assert (a + b)[0] == a[0] && (a + b)[1..] == a[1..] + b;
      DropKeyAppend(a[1..], b, key);
    }
  }

  lemma {:induction false} DropKeyLength<K>(keys: seq<K>, key: K)
    requires Distinct(keys)
    ensures |DropKey(keys, key)| == if key in keys then |keys| - 1 else |keys|
  {
    if keys != [] {
      if keys[0] == key {
        DropKeyAbsent(keys[1..], key);
      } else {
        DropKeyLength(keys[1..], key);
      }
    }
  }

  lemma {:induction false} UpsertKeys<K, V>(entries: seq<(K, V)>, key: K, value: V)
    ensures Keys(Upsert(entries, key, value)) == if key in Keys(entries) then Keys(entries) else Keys(entries) + [key]
  {
    if entries != [] {
      assert Keys(entries) == [entries[0].0] + Keys(entries[1..]);
      if entries[0].0 != key {
        UpsertKeys(entries[1..], key, value);
        var rest := Upsert(entries[1..], key, value);
        assert Keys([entries[0]] + rest) == [entries[0].0] + Keys(rest);
      }
    }
  }

  lemma {:induction false} UpsertFind<K, V>(entries: seq<(K, V)>, key: K, value: V, k: K)
    ensures Find(Upsert(entries, key, value), k) == if k == key then Some(value) else Find(entries, k)
  {
    if entries != [] && entries[0].0 != key {
      UpsertFind(entries[1..], key, value, k);
    }
  }

  lemma {:induction false} UpsertAbsent<K, V>(entries: seq<(K, V)>, key: K, value: V)
    requires key !in Keys(entries)
    ensures Upsert(entries, key, value) == entries + [(key, value)]
  {
    if entries != [] {
      assert Keys(entries)[0] == entries[0].0 && Keys(entries)[1..] == Keys(entries[1..]);
      UpsertAbsent(entries[1..], key, value);
    }
  }

  lemma {:induction false} FindByKey<K, V>(entries: seq<(K, V)>, i: nat)
    requires Distinct(Keys(entries)) && i < |entries|
    ensures Find(entries, entries[i].0) == Some(entries[i].1)
  {
    if i > 0 {
      assert Keys(entries)[0] != Keys(entries)[i];
      assert Keys(entries)[1..] == Keys(entries[1..]);
      FindByKey(entries[1..], i - 1);
    }
  }

  lemma FoundIsKey<K, V>(entries: seq<(K, V)>, key: K)
    ensures Find(entries, key).Some? <==> key in Keys(entries)
  {
    if key in Keys(entries) {
      var i :| 0 <= i < |entries| && Keys(entries)[i] == key;
      assert entries[i] in entries;
    }
    if Find(entries, key).Some? {
      var i :| 0 <= i < |entries| && entries[i] == (key, Find(entries, key).value);
      assert Keys(entries)[i] == key;
    }
  }

  lemma UpsertKeepsDistinct<K, V>(entries: seq<(K, V)>, key: K, value: V)
    requires Distinct(Keys(entries))
    ensures Distinct(Keys(Upsert(entries, key, value)))
  {
    UpsertKeys(entries, key, value);
  }

  lemma NotEarlier<K, V>(a: seq<(K, V)>, b: seq<(K, V)>)
    requires b != [] && Distinct(Keys(a + b))
    ensures b[0].0 !in Keys(a)
  {
    assert Keys(a + b)[|a|] == b[0].0;
    forall i | 0 <= i < |a| ensures Keys(a)[i] != b[0].0 {
      assert Keys(a + b)[i] == Keys(a)[i];
    }
  }

  /** Two maps with the same keys in the same order, holding the same under each, are the same. */
  lemma SameMap<K, V>(a: seq<(K, V)>, b: seq<(K, V)>)
    requires Keys(a) == Keys(b) && Distinct(Keys(a))
    requires forall i :: 0 <= i < |a| ==> Find(a, a[i].0) == Find(b, a[i].0)
    ensures a == b
  {
    forall i | 0 <= i < |a| ensures a[i] == b[i] {
      assert Keys(a)[i] == Keys(b)[i];
      FindByKey(a, i);
      FindByKey(b, i);
    }
  }
}
