/** A stable sort by key, the ordering LINQ's OrderBy/ThenBy perform:
    elements with equal keys keep their input order. */
module Sorting {

  ghost predicate Total<K(!new)>(leq: (K, K) -> bool) {
    forall a, b :: leq(a, b) || leq(b, a)
  }

  ghost predicate Transitive<K(!new)>(leq: (K, K) -> bool) {
    forall a, b, c :: leq(a, b) && leq(b, c) ==> leq(a, c)
  }

  /** Every element's key is at most every later element's key. */
  ghost predicate SortedBy<T, K>(s: seq<T>, key: T -> K, leq: (K, K) -> bool) {
    forall i, j | 0 <= i < j < |s| :: leq(key(s[i]), key(s[j]))
  }

  /** The elements of s whose key is k, in their order in s. */
  function WithKey<T, K(==)>(s: seq<T>, key: T -> K, k: K): seq<T> {
    if s == [] then []
    else (if key(s[0]) == k then [s[0]] else []) + WithKey(s[1..], key, k)
  }

  /** f applied to every element. */
  function Project<T, U>(s: seq<T>, f: T -> U): (r: seq<U>)
    ensures |r| == |s|
    ensures forall i | 0 <= i < |s| :: r[i] == f(s[i])
  {
    if s == [] then [] else [f(s[0])] + Project(s[1..], f)
  }

  /** Places x before the first element whose key is not below x's. */
  function Insert<T, K>(x: T, s: seq<T>, key: T -> K, leq: (K, K) -> bool): seq<T> {
    if s == [] then [x]
    else if leq(key(x), key(s[0])) then [x] + s
    else [s[0]] + Insert(x, s[1..], key, leq)
  }

  function Sort<T, K>(s: seq<T>, key: T -> K, leq: (K, K) -> bool): seq<T> {
    if s == [] then [] else Insert(s[0], Sort(s[1..], key, leq), key, leq)
  }

  // ---------------------------------------------------------------------------
  // Permutation

  lemma {:induction false} InsertProjectMultiset<T, K, U>(x: T, s: seq<T>, key: T -> K, leq: (K, K) -> bool, f: T -> U)
    ensures multiset(Project(Insert(x, s, key, leq), f)) == multiset(Project(s, f)) + multiset{f(x)}
  {
    if s != [] && !leq(key(x), key(s[0])) {
      InsertProjectMultiset(x, s[1..], key, leq, f);
      assert Project(s, f) == [f(s[0])] + Project(s[1..], f);
      var r := [s[0]] + Insert(x, s[1..], key, leq);
      assert r[1..] == Insert(x, s[1..], key, leq);
    } else if s != [] {
      assert ([x] + s)[1..] == s;
    }
  }

  /** Sorting permutes the elements, and so it permutes any projection of them. */
  lemma {:induction false} SortProjectMultiset<T, K, U>(s: seq<T>, key: T -> K, leq: (K, K) -> bool, f: T -> U)
    ensures multiset(Project(Sort(s, key, leq), f)) == multiset(Project(s, f))
  {
    if s != [] {
      SortProjectMultiset(s[1..], key, leq, f);
      InsertProjectMultiset(s[0], Sort(s[1..], key, leq), key, leq, f);
    }
  }

  lemma {:induction false} InsertMultiset<T, K>(x: T, s: seq<T>, key: T -> K, leq: (K, K) -> bool)
    ensures multiset(Insert(x, s, key, leq)) == multiset(s) + multiset{x}
  {
    if s != [] && !leq(key(x), key(s[0])) {
      InsertMultiset(x, s[1..], key, leq);
      assert s == [s[0]] + s[1..];
    }
  }

  lemma {:induction false} SortMultiset<T, K>(s: seq<T>, key: T -> K, leq: (K, K) -> bool)
    ensures multiset(Sort(s, key, leq)) == multiset(s)
  {
    if s != [] {
      SortMultiset(s[1..], key, leq);
      InsertMultiset(s[0], Sort(s[1..], key, leq), key, leq);
      assert s == [s[0]] + s[1..];
    }
  }

  // ---------------------------------------------------------------------------
  // Order

  lemma {:induction false} InsertSorted<T, K(!new)>(x: T, s: seq<T>, key: T -> K, leq: (K, K) -> bool)
    requires Total(leq) && Transitive(leq)
    requires SortedBy(s, key, leq)
    ensures SortedBy(Insert(x, s, key, leq), key, leq)
  {
    if s != [] && !leq(key(x), key(s[0])) {
      var t := Insert(x, s[1..], key, leq);
      assert SortedBy(s[1..], key, leq) by {
        forall i, j | 0 <= i < j < |s[1..]|
          ensures leq(key(s[1..][i]), key(s[1..][j]))
        {
          assert s[1..][i] == s[i + 1] && s[1..][j] == s[j + 1];
        }
      }
      InsertSorted(x, s[1..], key, leq);
      InsertMultiset(x, s[1..], key, leq);
      forall j | 0 <= j < |t|
        ensures leq(key(s[0]), key(t[j]))
      {
        assert t[j] in multiset(t);
        if t[j] != x {
          assert t[j] in multiset(s[1..]);
          var m :| 0 <= m < |s[1..]| && s[1..][m] == t[j];
          assert s[m + 1] == t[j];
        }
      }
      var r := [s[0]] + t;
      forall i, j | 0 <= i < j < |r|
        ensures leq(key(r[i]), key(r[j]))
      {
        if i > 0 {
          assert r[i] == t[i - 1] && r[j] == t[j - 1];
        }
      }
    } else if s != [] {
      var r := [x] + s;
      forall i, j | 0 <= i < j < |r|
        ensures leq(key(r[i]), key(r[j]))
      {
        if i == 0 && j > 1 {
          assert leq(key(s[0]), key(s[j - 1]));
        }
      }
    }
  }

  lemma {:induction false} SortSorted<T, K(!new)>(s: seq<T>, key: T -> K, leq: (K, K) -> bool)
    requires Total(leq) && Transitive(leq)
    ensures SortedBy(Sort(s, key, leq), key, leq)
  {
    if s != [] {
      SortSorted(s[1..], key, leq);
      InsertSorted(s[0], Sort(s[1..], key, leq), key, leq);
    }
  }

  // ---------------------------------------------------------------------------
  // Stability

  lemma {:induction false} WithKeyCons<T, K>(x: T, s: seq<T>, key: T -> K, k: K)
    ensures WithKey([x] + s, key, k) == (if key(x) == k then [x] else []) + WithKey(s, key, k)
  {
    assert ([x] + s)[1..] == s;
  }

  /** Inserting x keeps the order among the elements of any one key,
      with x before the elements of its own key. */
  lemma {:induction false} InsertWithKey<T, K(!new)>(x: T, s: seq<T>, key: T -> K, leq: (K, K) -> bool, k: K)
    requires Total(leq)
    ensures WithKey(Insert(x, s, key, leq), key, k) == WithKey([x] + s, key, k)
  {
    if s != [] && !leq(key(x), key(s[0])) {
      var t := s[1..];
      var px := if key(x) == k then [x] else [];
      var p0 := if key(s[0]) == k then [s[0]] else [];
      assert px == [] || p0 == [] by {
        assert leq(key(x), key(x));
      }
      calc {
        WithKey(Insert(x, s, key, leq), key, k);
        { WithKeyCons(s[0], Insert(x, t, key, leq), key, k); }
        p0 + WithKey(Insert(x, t, key, leq), key, k);
        { InsertWithKey(x, t, key, leq, k); WithKeyCons(x, t, key, k); }
        p0 + (px + WithKey(t, key, k));
        px + (p0 + WithKey(t, key, k));
        { assert s == [s[0]] + t; WithKeyCons(s[0], t, key, k); }
        px + WithKey(s, key, k);
        { WithKeyCons(x, s, key, k); }
        WithKey([x] + s, key, k);
      }
    }
  }

  /** Sorting keeps, for every key, the input order of the elements with that key. */
  lemma {:induction false} SortWithKey<T, K(!new)>(s: seq<T>, key: T -> K, leq: (K, K) -> bool, k: K)
    requires Total(leq)
    ensures WithKey(Sort(s, key, leq), key, k) == WithKey(s, key, k)
  {
    if s != [] {
      SortWithKey(s[1..], key, leq, k);
      InsertWithKey(s[0], Sort(s[1..], key, leq), key, leq, k);
      WithKeyCons(s[0], Sort(s[1..], key, leq), key, k);
    }
  }
}
