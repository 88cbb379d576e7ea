/**
 * Python's `sorted(xs, key=f)` and `xs.sort(key=f)`: a stable sort by key.
 * The model sorts by insertion; what it promises is what Python's sort
 * promises: the result is ordered by key, and the elements that share a key
 * keep their relative order (so the result is also a permutation).
 */
module Sorting {

  ghost predicate TotalPreorder<K(!new)>(le: (K, K) -> bool)
  {
    && (forall a :: le(a, a))
    && (forall a, b :: le(a, b) || le(b, a))
    && (forall a, b, c :: le(a, b) && le(b, c) ==> le(a, c))
  }

  ghost predicate SortedBy<T, K>(s: seq<T>, key: T -> K, le: (K, K) -> bool)
  {
    forall i, j :: 0 <= i < j < |s| ==> le(key(s[i]), key(s[j]))
  }

  /** `[x for x in s if key(x) == k]`: the elements of one key, in order. */
  function WithKey<T, K(==)>(s: seq<T>, key: T -> K, k: K): seq<T>
  {
    if s == [] then [] else (if key(s[0]) == k then [s[0]] else []) + WithKey(s[1..], key, k)
  }

  /** Inserts `x` before the first element whose key is not below its own. */
  function Insert<T, K>(x: T, s: seq<T>, key: T -> K, le: (K, K) -> bool): seq<T>
  {
    if s == [] then [x]
    else if le(key(x), key(s[0])) then [x] + s
    else [s[0]] + Insert(x, s[1..], key, le)
  }

  function SortBy<T, K>(s: seq<T>, key: T -> K, le: (K, K) -> bool): seq<T>
  {
    if s == [] then [] else Insert(s[0], SortBy(s[1..], key, le), key, le)
  }

  lemma {:induction false} InsertPermutes<T, K>(x: T, s: seq<T>, key: T -> K, le: (K, K) -> bool)
    ensures multiset(Insert(x, s, key, le)) == multiset(s) + multiset{x}
  {
    if s != [] && !le(key(x), key(s[0])) {
      InsertPermutes(x, s[1..], key, le);
      assert s == [s[0]] + s[1..];
      assert multiset(s) == multiset{s[0]} + multiset(s[1..]);
    }
  }

  /** Insertion brings in nothing but `x`. */
  lemma {:induction false} InsertMembers<T, K>(x: T, s: seq<T>, key: T -> K, le: (K, K) -> bool)
    ensures forall y :: y in Insert(x, s, key, le) ==> y == x || y in s
  {
    if s != [] && !le(key(x), key(s[0])) {
      InsertMembers(x, s[1..], key, le);
    }
  }

  lemma {:induction false} InsertSorted<T, K(!new)>(x: T, s: seq<T>, key: T -> K, le: (K, K) -> bool)
    requires TotalPreorder(le) && SortedBy(s, key, le)
    ensures SortedBy(Insert(x, s, key, le), key, le)
  {
    if s != [] && !le(key(x), key(s[0])) {
      var rest := Insert(x, s[1..], key, le);
      InsertSorted(x, s[1..], key, le);
      HeadBelowRest(x, s, key, le);
      ConsSorted(s[0], rest, key, le);
    }
  }

  /** The head of a sorted `s` that `x` goes after is below everything `x` is inserted into after it. */
  lemma HeadBelowRest<T, K(!new)>(x: T, s: seq<T>, key: T -> K, le: (K, K) -> bool)
    requires TotalPreorder(le) && SortedBy(s, key, le) && s != [] && !le(key(x), key(s[0]))
    ensures forall y :: y in Insert(x, s[1..], key, le) ==> le(key(s[0]), key(y))
  {
    InsertMembers(x, s[1..], key, le);
    forall y | y in Insert(x, s[1..], key, le)
      ensures le(key(s[0]), key(y))
    {
      if y != x {
        var j :| 0 <= j < |s[1..]| && s[1..][j] == y;
        assert s[j + 1] == y;
      }
    }
  }

  /** A sorted sequence stays sorted behind a head below all its elements. */
  lemma ConsSorted<T, K>(h: T, rest: seq<T>, key: T -> K, le: (K, K) -> bool)
    requires SortedBy(rest, key, le) && forall y :: y in rest ==> le(key(h), key(y))
    ensures SortedBy([h] + rest, key, le)
  {
    var r := [h] + rest;
    forall i, j | 0 <= i < j < |r|
      ensures le(key(r[i]), key(r[j]))
    {
      if i == 0 {
        assert r[j] == rest[j - 1];
        assert rest[j - 1] in rest;
      } else {
        assert r[i] == rest[i - 1] && r[j] == rest[j - 1];
      }
    }
  }

  lemma {:induction false} InsertKeepsKeyOrder<T, K(!new)>(x: T, s: seq<T>, key: T -> K, le: (K, K) -> bool, k: K)
    requires TotalPreorder(le)
    ensures WithKey(Insert(x, s, key, le), key, k) == (if key(x) == k then [x] else []) + WithKey(s, key, k)
  {
    var r := Insert(x, s, key, le);
    if s == [] {
      assert r[1..] == [];
    } else if le(key(x), key(s[0])) {
      assert r[1..] == s;
    } else {
      InsertKeepsKeyOrder(x, s[1..], key, le, k);
      assert r[1..] == Insert(x, s[1..], key, le);
      assert key(s[0]) != key(x);
    }
  }

  /** The sorted sequence is ordered by key. */
  lemma {:induction false} SortBySorted<T, K(!new)>(s: seq<T>, key: T -> K, le: (K, K) -> bool)
    requires TotalPreorder(le)
    ensures SortedBy(SortBy(s, key, le), key, le)
  {
    if s != [] {
      SortBySorted(s[1..], key, le);
      InsertSorted(s[0], SortBy(s[1..], key, le), key, le);
    }
  }

  /** The sorted sequence holds the same elements, as many times each. */
  lemma {:induction false} SortByPermutes<T, K>(s: seq<T>, key: T -> K, le: (K, K) -> bool)
    ensures multiset(SortBy(s, key, le)) == multiset(s)
    ensures |SortBy(s, key, le)| == |s|
  {
    if s != [] {
      SortByPermutes(s[1..], key, le);
      InsertPermutes(s[0], SortBy(s[1..], key, le), key, le);
      assert s == [s[0]] + s[1..];
    }
    assert |multiset(SortBy(s, key, le))| == |multiset(s)|;
  }

  /** Stability: the elements that share any one key keep their input order. */
  lemma {:induction false} SortByStable<T, K(!new)>(s: seq<T>, key: T -> K, le: (K, K) -> bool, k: K)
    requires TotalPreorder(le)
    ensures WithKey(SortBy(s, key, le), key, k) == WithKey(s, key, k)
  {
    if s != [] {
      SortByStable(s[1..], key, le, k);
      InsertKeepsKeyOrder(s[0], SortBy(s[1..], key, le), key, le, k);
    }
  }
}
