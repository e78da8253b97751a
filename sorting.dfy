/**
 * The sorts app.js performs with `Array.prototype.sort` and a comparator of
 * the form `(a, b) => key(b) - key(a)`: descending by a numeric key, and,
 * since that sort is stable, elements with equal keys keep their order.
 *
 * `SortDesc` is an insertion sort used as the reference definition; the
 * lemmas show it is ordered, a permutation, and stable, which together
 * determine the result of any stable descending sort.
 */
module Sorting {

  /** Inserts `x` before the first element whose key is not larger than its own. */
  function Insert<T>(x: T, s: seq<T>, key: T -> real): seq<T> {
    if s == [] || key(s[0]) <= key(x) then [x] + s
    else [s[0]] + Insert(x, s[1..], key)
  }

  function SortDesc<T>(s: seq<T>, key: T -> real): seq<T> {
    if s == [] then [] else Insert(s[0], SortDesc(s[1..], key), key)
  }

  predicate SortedDesc<T>(s: seq<T>, key: T -> real) {
    forall i, j :: 0 <= i < j < |s| ==> key(s[i]) >= key(s[j])
  }

  /** The elements whose key is `v`, in order. */
  function WithKey<T>(s: seq<T>, key: T -> real, v: real): seq<T> {
    if s == [] then []
    else (if key(s[0]) == v then [s[0]] else []) + WithKey(s[1..], key, v)
  }

  lemma {:induction false} InsertPerm<T>(x: T, s: seq<T>, key: T -> real)
    ensures multiset(Insert(x, s, key)) == multiset(s) + multiset{x}
  {
    if s != [] && key(s[0]) > key(x) {
      InsertPerm(x, s[1..], key);
      assert s == [s[0]] + s[1..];
    }
  }

  lemma {:induction false} InsertBelow<T>(x: T, s: seq<T>, key: T -> real, b: real)
    requires key(x) <= b && forall i :: 0 <= i < |s| ==> key(s[i]) <= b
    ensures forall i :: 0 <= i < |Insert(x, s, key)| ==> key(Insert(x, s, key)[i]) <= b
  {
    if s != [] && key(s[0]) > key(x) {
      InsertBelow(x, s[1..], key, b);
    }
  }

  lemma {:induction false} InsertSorted<T>(x: T, s: seq<T>, key: T -> real)
    requires SortedDesc(s, key)
    ensures SortedDesc(Insert(x, s, key), key)
  {
    if s != [] && key(s[0]) > key(x) {
      InsertSorted(x, s[1..], key);
      var t := Insert(x, s[1..], key);
      InsertBelow(x, s[1..], key, key(s[0]));
      var r := [s[0]] + t;
      forall i, j | 0 <= i < j < |r| ensures key(r[i]) >= key(r[j]) {
        assert r[j] == t[j - 1];
        if i > 0 {
          assert r[i] == t[i - 1];
        }
      }
    }
  }

  /** Inserting `x` adds it to the front of its own key's elements, since everything before it has a larger key. */
  lemma {:induction false} InsertWithKey<T>(x: T, s: seq<T>, key: T -> real, v: real)
    ensures WithKey(Insert(x, s, key), key, v) == (if key(x) == v then [x] else []) + WithKey(s, key, v)
  {
    if s == [] || key(s[0]) <= key(x) {
      var r := [x] + s;
      assert r[0] == x && r[1..] == s;
      assert WithKey(r, key, v) == (if key(x) == v then [x] else []) + WithKey(s, key, v);
    } else {
      var t := Insert(x, s[1..], key);
      var r := [s[0]] + t;
      var w := WithKey(s[1..], key, v);
      InsertWithKey(x, s[1..], key, v);
      assert r[0] == s[0] && r[1..] == t;
      if key(x) == v {
        assert key(s[0]) != v;
        assert WithKey(s, key, v) == [] + w == w;
        assert WithKey(t, key, v) == [x] + w;
        assert WithKey(r, key, v) == [] + ([x] + w) == [x] + w;
      } else {
        var h := if key(s[0]) == v then [s[0]] else [];
        assert WithKey(s, key, v) == h + w;
        assert WithKey(t, key, v) == [] + w == w;
        assert WithKey(r, key, v) == h + w;
        assert [] + (h + w) == h + w;
      }
    }
  }

  /** The result is ordered by key, largest first. */
  lemma {:induction false} SortDescSorted<T>(s: seq<T>, key: T -> real)
    ensures SortedDesc(SortDesc(s, key), key)
  {
    if s != [] {
      SortDescSorted(s[1..], key);
      InsertSorted(s[0], SortDesc(s[1..], key), key);
    }
  }

  /** The result holds the same elements, each as often. */
  lemma {:induction false} SortDescPerm<T>(s: seq<T>, key: T -> real)
    ensures multiset(SortDesc(s, key)) == multiset(s)
  {
    if s != [] {
      SortDescPerm(s[1..], key);
      InsertPerm(s[0], SortDesc(s[1..], key), key);
      assert s == [s[0]] + s[1..];
    }
  }

  /** Stability: the elements of any one key appear in their original order. */
  lemma {:induction false} SortDescStable<T>(s: seq<T>, key: T -> real, v: real)
    ensures WithKey(SortDesc(s, key), key, v) == WithKey(s, key, v)
  {
    if s != [] {
      SortDescStable(s[1..], key, v);
      InsertWithKey(s[0], SortDesc(s[1..], key), key, v);
    }
  }

  /** An input already in order comes back unchanged. */
  lemma {:induction false} SortDescOfSorted<T>(s: seq<T>, key: T -> real)
    requires SortedDesc(s, key)
    ensures SortDesc(s, key) == s
  {
    if s != [] {
      assert SortedDesc(s[1..], key) by {
        forall i, j | 0 <= i < j < |s[1..]| ensures key(s[1..][i]) >= key(s[1..][j]) {
          assert s[1..][i] == s[i + 1] && s[1..][j] == s[j + 1];
        }
      }
      SortDescOfSorted(s[1..], key);
      assert s[1..] == [] || key(s[1..][0]) <= key(s[0]);
    }
  }
}
