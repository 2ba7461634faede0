/** Sorting by an order: what `Array.prototype.sort` promises, a stable sorted permutation. */
module Sorting {

  type Order<!T> = (T, T) -> bool

  ghost predicate TotalPreorder<T(!new)>(le: Order<T>)
  {
    && (forall x, y :: le(x, y) || le(y, x))
    && (forall x, y, z :: le(x, y) && le(y, z) ==> le(x, z))
  }

  ghost predicate Sorted<T>(le: Order<T>, s: seq<T>)
  {
    forall i, j :: 0 <= i < j < |s| ==> le(s[i], s[j])
  }

  /** Before the first element it does not follow strictly. */
  function Insert<T>(le: Order<T>, x: T, s: seq<T>): (r: seq<T>)
    ensures |r| == |s| + 1
  {
    if s == [] then [x]
    else if le(x, s[0]) then [x] + s
    else [s[0]] + Insert(le, x, s[1..])
  }

  function Sort<T>(le: Order<T>, s: seq<T>): (r: seq<T>)
    ensures |r| == |s|
  {
    if s == [] then [] else Insert(le, s[0], Sort(le, s[1..]))
  }

  lemma {:induction false} InsertContents<T>(le: Order<T>, x: T, s: seq<T>)
    ensures multiset(Insert(le, x, s)) == multiset{x} + multiset(s)
  {
    if s != [] {
      assert s == [s[0]] + s[1..];
      if !le(x, s[0]) {
        InsertContents(le, x, s[1..]);
      }
    }
  }

  lemma {:induction false} InsertSorted<T(!new)>(le: Order<T>, x: T, s: seq<T>)
    requires TotalPreorder(le) && Sorted(le, s)
    ensures Sorted(le, Insert(le, x, s))
  {
    if s != [] && !le(x, s[0]) {
      InsertSorted(le, x, s[1..]);
      InsertContents(le, x, s[1..]);
      var rest := Insert(le, x, s[1..]);
      forall k | 0 <= k < |rest| ensures le(s[0], rest[k]) {
        assert rest[k] in multiset(rest);
        assert rest[k] == x || rest[k] in s[1..];
      }
    }
  }

  /** A sorted permutation. */
  lemma {:induction false} SortedPermutation<T(!new)>(le: Order<T>, s: seq<T>)
    requires TotalPreorder(le)
    ensures Sorted(le, Sort(le, s)) && multiset(Sort(le, s)) == multiset(s)
  {
    if s != [] {
      SortedPermutation(le, s[1..]);
      InsertSorted(le, s[0], Sort(le, s[1..]));
      InsertContents(le, s[0], Sort(le, s[1..]));
      assert s == [s[0]] + s[1..];
    }
  }

  lemma SameElements<T>(le: Order<T>, s: seq<T>)
    requires multiset(Sort(le, s)) == multiset(s)
    ensures forall x :: x in Sort(le, s) <==> x in s
  {
    assert forall x :: x in Sort(le, s) <==> x in multiset(Sort(le, s));
    assert forall x :: x in s <==> x in multiset(s);
  }

  predicate Tie<T>(le: Order<T>, x: T, y: T)
  {
    le(x, y) && le(y, x)
  }

  /** The elements that tie with `x`, in the order they come. */
  function Ties<T>(le: Order<T>, x: T, s: seq<T>): seq<T>
  {
    if s == [] then []
    else if Tie(le, x, s[0]) then [s[0]] + Ties(le, x, s[1..])
    else Ties(le, x, s[1..])
  }

  lemma NotBothTie<T(!new)>(le: Order<T>, x: T, y: T, z: T)
    requires TotalPreorder(le) && !le(y, z)
    ensures !(Tie(le, x, y) && Tie(le, x, z))
  {
    assert le(y, x) && le(x, z) ==> le(y, z);
  }

  lemma TiesCons<T>(le: Order<T>, x: T, y: T, s: seq<T>)
    ensures Ties(le, x, [y] + s) == (if Tie(le, x, y) then [y] else []) + Ties(le, x, s)
  {
    assert ([y] + s)[0] == y && ([y] + s)[1..] == s;
  }

  lemma {:induction false} InsertKeepsTies<T>(le: Order<T>, x: T, y: T, s: seq<T>)
    requires forall z :: z in s && !le(y, z) ==> !(Tie(le, x, y) && Tie(le, x, z))
    ensures Ties(le, x, Insert(le, y, s)) == (if Tie(le, x, y) then [y] else []) + Ties(le, x, s)
  {
    if s == [] || le(y, s[0]) {
      assert Insert(le, y, s) == [y] + s;
      TiesCons(le, x, y, s);
    } else {
      var rest := Insert(le, y, s[1..]);
      InsertKeepsTies(le, x, y, s[1..]);
      TiesCons(le, x, s[0], rest);
      assert Insert(le, y, s) == [s[0]] + rest;
      if Tie(le, x, y) {
        assert s[0] in s && !Tie(le, x, s[0]);
      }
    }
  }

  /** Stable: elements that tie keep their order. */
  lemma {:induction false} Stable<T(!new)>(le: Order<T>, x: T, s: seq<T>)
    requires TotalPreorder(le)
    ensures Ties(le, x, Sort(le, s)) == Ties(le, x, s)
  {
    if s != [] {
      Stable(le, x, s[1..]);
      forall z | !le(s[0], z) ensures !(Tie(le, x, s[0]) && Tie(le, x, z)) {
        NotBothTie(le, x, s[0], z);
      }
      InsertKeepsTies(le, x, s[0], Sort(le, s[1..]));
    }
  }

  lemma HeadsTie<T>(le: Order<T>, a: seq<T>, b: seq<T>)
    requires Sorted(le, a) && Sorted(le, b) && multiset(a) == multiset(b) && a != [] && b != []
    ensures a[0] == b[0] || Tie(le, a[0], b[0])
    ensures a[0] in a && b[0] in a
  {
    assert a[0] in multiset(b) && b[0] in multiset(a);
    var i :| 0 <= i < |b| && b[i] == a[0];
    var j :| 0 <= j < |a| && a[j] == b[0];
  }

  lemma TailsAgree<T>(a: seq<T>, b: seq<T>)
    requires a != [] && b != [] && a[0] == b[0] && multiset(a) == multiset(b)
    ensures multiset(a[1..]) == multiset(b[1..])
  {
    assert a == [a[0]] + a[1..] && b == [b[0]] + b[1..];
    assert multiset(a[1..]) == multiset(a) - multiset{a[0]};
    assert multiset(b[1..]) == multiset(b) - multiset{b[0]};
  }

  /** When no two different elements tie there is only one sorted arrangement. */
  lemma {:induction false} SortedUnique<T(!new)>(le: Order<T>, a: seq<T>, b: seq<T>)
    requires Sorted(le, a) && Sorted(le, b) && multiset(a) == multiset(b)
    requires forall x, y :: x in a && y in a && Tie(le, x, y) ==> x == y
    ensures a == b
    decreases |a|
  {
    assert |a| == |multiset(a)| == |b|;
    if a != [] {
      HeadsTie(le, a, b);
      TailsAgree(a, b);
      SortedUnique(le, a[1..], b[1..]);
      assert a == [a[0]] + a[1..] && b == [b[0]] + b[1..];
    }
  }
}
