/**
 * `list.sort(key=k, reverse=True)`: Python's sort is stable also when it sorts
 * in descending order, so elements with equal keys keep their relative order.
 * The sort is stated as an insertion sort on values; its results are proved
 * ordered, a permutation of the input, and stable.
 */
module StableSort {

  /** Keys never increase from left to right. */
  predicate SortedDescending<T>(s: seq<T>, key: T -> real) {
    forall i, j :: 0 <= i < j < |s| ==> key(s[i]) >= key(s[j])
  }

  /** The elements of `s` whose key is `v`, in their order in `s`. */
  function WithKey<T>(s: seq<T>, key: T -> real, v: real): seq<T> {
    if s == [] then []
    else (if key(s[0]) == v then [s[0]] else []) + WithKey(s[1..], key, v)
  }

  /** Puts `x` into `s` in front of the first element whose key is not greater
      than `x`'s, so `x` precedes the elements with its own key. */
  function Insert<T>(x: T, s: seq<T>, key: T -> real): seq<T> {
    if s == [] then [x]
    else if key(s[0]) > key(x) then [s[0]] + Insert(x, s[1..], key)
    else [x] + s
  }

  /** The stable descending sort of `s` by `key`. */
  function SortDescending<T>(s: seq<T>, key: T -> real): seq<T> {
    if s == [] then [] else Insert(s[0], SortDescending(s[1..], key), key)
  }

  // ---------------------------------------------------------------------------
  // Insert

  lemma {:induction false} InsertPermutes<T>(x: T, s: seq<T>, key: T -> real)
    ensures multiset(Insert(x, s, key)) == multiset(s) + multiset{x}
  {
    if s != [] && key(s[0]) > key(x) {
      InsertPermutes(x, s[1..], key);
      assert s == [s[0]] + s[1..];
    }
  }

  lemma {:induction false} InsertSorted<T>(x: T, s: seq<T>, key: T -> real)
    requires SortedDescending(s, key)
    ensures SortedDescending(Insert(x, s, key), key)
  {
    if s != [] && key(s[0]) > key(x) {
      InsertSorted(x, s[1..], key);
      var r := Insert(x, s[1..], key);
      InsertPermutes(x, s[1..], key);
      forall j | 0 <= j < |r| ensures key(s[0]) >= key(r[j]) {
        assert r[j] in multiset(r);
        assert r[j] == x || r[j] in multiset(s[1..]);
      }
    }
  }

  lemma WithKeyCons<T>(y: T, s: seq<T>, key: T -> real, v: real)
    ensures WithKey([y] + s, key, v) == (if key(y) == v then [y] else []) + WithKey(s, key, v)
  {
    assert ([y] + s)[1..] == s;
  }

  /** Inserting `x` adds it in front of the elements with its key, and changes
      the order of nothing else. */
  lemma {:induction false} InsertWithKey<T>(x: T, s: seq<T>, key: T -> real, v: real)
    ensures WithKey(Insert(x, s, key), key, v) == (if key(x) == v then [x] else []) + WithKey(s, key, v)
  {
    if s == [] {
      WithKeyCons(x, s, key, v);
    } else if key(s[0]) > key(x) {
      var r := Insert(x, s[1..], key);
      InsertWithKey(x, s[1..], key, v);
      WithKeyCons(s[0], r, key, v);
      WithKeyCons(s[0], s[1..], key, v);
      assert s == [s[0]] + s[1..];
      if key(x) == v {
        assert key(s[0]) != v;
      }
    } else {
      WithKeyCons(x, s, key, v);
    }
  }

  // ---------------------------------------------------------------------------
  // SortDescending

  /** The result is a permutation of the input. */
  lemma {:induction false} SortPermutes<T>(s: seq<T>, key: T -> real)
    ensures multiset(SortDescending(s, key)) == multiset(s)
    ensures |SortDescending(s, key)| == |s|
  {
    if s != [] {
      SortPermutes(s[1..], key);
      InsertPermutes(s[0], SortDescending(s[1..], key), key);
      assert s == [s[0]] + s[1..];
    }
  }

  /** The result is ordered by non-increasing key. */
  lemma {:induction false} SortSorted<T>(s: seq<T>, key: T -> real)
    ensures SortedDescending(SortDescending(s, key), key)
  {
    if s != [] {
      SortSorted(s[1..], key);
      InsertSorted(s[0], SortDescending(s[1..], key), key);
    }
  }

  /** The sort is stable: the elements with any one key appear in the result
      in the order they had in the input. */
  lemma {:induction false} SortStable<T>(s: seq<T>, key: T -> real, v: real)
    ensures WithKey(SortDescending(s, key), key, v) == WithKey(s, key, v)
  {
    if s != [] {
      SortStable(s[1..], key, v);
      InsertWithKey(s[0], SortDescending(s[1..], key), key, v);
    }
  }

  /** Every element of the result comes from the input and vice versa. */
  lemma SortSameElements<T>(s: seq<T>, key: T -> real)
    ensures forall x :: x in SortDescending(s, key) <==> x in s
  {
    SortPermutes(s, key);
    forall x ensures x in SortDescending(s, key) <==> x in s {
      assert x in SortDescending(s, key) <==> x in multiset(SortDescending(s, key));
      assert x in s <==> x in multiset(s);
    }
  }
}
