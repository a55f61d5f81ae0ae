// std::stable_sort as the slicing helpers use it: a sequence reordered so
// that keys ascend, elements with equal keys keeping their original order.
// A descending sort is the ascending sort of the negated key.
module StableSorts {

  predicate SortedByKey<T>(xs: seq<T>, key: T -> int)
  {
    forall i, j :: 0 <= i < j < |xs| ==> key(xs[i]) <= key(xs[j])
  }

  /** The elements of xs whose key is k, in their order in xs. */
  function KeyFilter<T>(xs: seq<T>, key: T -> int, k: int): seq<T>
  {
    if |xs| == 0 then []
    else (if key(xs[0]) == k then [xs[0]] else []) + KeyFilter(xs[1..], key, k)
  }

  /** Inserts x before the first element whose key is not smaller. */
  function InsertByKey<T>(x: T, s: seq<T>, key: T -> int): (r: seq<T>)
    ensures multiset(r) == multiset(s) + multiset{x}
    ensures |r| == |s| + 1
  {
    if |s| == 0 then [x]
    else if key(x) <= key(s[0]) then [x] + s
    else
      assert s == [s[0]] + s[1..];
      [s[0]] + InsertByKey(x, s[1..], key)
  }

  lemma {:induction false} InsertKeepsSorted<T>(x: T, s: seq<T>, key: T -> int)
    requires SortedByKey(s, key)
    ensures SortedByKey(InsertByKey(x, s, key), key)
  {
    if |s| > 0 && key(x) > key(s[0]) {
      var rest := InsertByKey(x, s[1..], key);
      InsertKeepsSorted(x, s[1..], key);
      var r := [s[0]] + rest;
      forall j | 1 <= j < |r|
        ensures key(r[0]) <= key(r[j])
      {
        assert r[j] in multiset(rest);
        if r[j] != x {
          assert r[j] in multiset(s[1..]);
          var m :| 0 <= m < |s[1..]| && s[1..][m] == r[j];
          assert s[m + 1] == r[j];
        }
      }
    }
  }

  /** stable_sort by ascending key. */
  function SortByKey<T>(xs: seq<T>, key: T -> int): (r: seq<T>)
    ensures multiset(r) == multiset(xs)
    ensures |r| == |xs|
    ensures SortedByKey(r, key)
  {
    if |xs| == 0 then []
    else
      assert xs == [xs[0]] + xs[1..];
      InsertKeepsSorted(xs[0], SortByKey(xs[1..], key), key);
      InsertByKey(xs[0], SortByKey(xs[1..], key), key)
  }

  /** Inserting x in front of every equal key keeps each key's run in order. */
  lemma {:induction false} InsertKeepsKeyOrder<T>(x: T, s: seq<T>, key: T -> int, k: int)
    ensures KeyFilter(InsertByKey(x, s, key), key, k)
            == (if key(x) == k then [x] else []) + KeyFilter(s, key, k)
  {
    if |s| == 0 {
      KeyFilterCons(x, [], key, k);
      assert [x] + [] == [x];
    } else if key(x) <= key(s[0]) {
      KeyFilterCons(x, s, key, k);
    } else {
      InsertKeepsKeyOrder(x, s[1..], key, k);
      InsertKeyOrderStep(x, s, key, k);
    }
  }

  /** The step past a head whose key is smaller than x's. */
  lemma InsertKeyOrderStep<T>(x: T, s: seq<T>, key: T -> int, k: int)
    requires |s| > 0 && key(x) > key(s[0])
    requires KeyFilter(InsertByKey(x, s[1..], key), key, k)
             == (if key(x) == k then [x] else []) + KeyFilter(s[1..], key, k)
    ensures KeyFilter(InsertByKey(x, s, key), key, k)
            == (if key(x) == k then [x] else []) + KeyFilter(s, key, k)
  {
    var rest := InsertByKey(x, s[1..], key);
    assert InsertByKey(x, s, key) == [s[0]] + rest;
    KeyFilterCons(s[0], rest, key, k);
    KeyFilterCons(s[0], s[1..], key, k);
    assert s == [s[0]] + s[1..];
  }

  lemma KeyFilterCons<T>(h: T, t: seq<T>, key: T -> int, k: int)
    ensures KeyFilter([h] + t, key, k) == (if key(h) == k then [h] else []) + KeyFilter(t, key, k)
  {
    assert ([h] + t)[1..] == t;
  }

  /** The sort is stable: for every key, the elements carrying it appear in
      their original order. */
  lemma {:induction false} SortIsStable<T>(xs: seq<T>, key: T -> int, k: int)
    ensures KeyFilter(SortByKey(xs, key), key, k) == KeyFilter(xs, key, k)
  {
    if |xs| > 0 {
      SortIsStable(xs[1..], key, k);
      InsertKeepsKeyOrder(xs[0], SortByKey(xs[1..], key), key, k);
    }
  }

  /** Ordered by key, ties broken by the element itself. */
  predicate LexAscending(xs: seq<int>, key: int -> int)
  {
    forall i, j :: 0 <= i < j < |xs| ==>
      key(xs[i]) < key(xs[j]) || (key(xs[i]) == key(xs[j]) && xs[i] < xs[j])
  }

  /** Sorting strictly ascending values stably orders them by (key, value). */
  lemma {:induction false} SortOfAscendingIsLex(xs: seq<int>, key: int -> int)
    requires forall i, j :: 0 <= i < j < |xs| ==> xs[i] < xs[j]
    ensures LexAscending(SortByKey(xs, key), key)
  {
    if |xs| > 0 {
      var rest := SortByKey(xs[1..], key);
      SortOfAscendingIsLex(xs[1..], key);
      forall e | e in rest
        ensures xs[0] < e
      {
        assert e in multiset(xs[1..]);
      }
      InsertSmallestIsLex(xs[0], rest, key);
    }
  }

  lemma {:induction false} InsertSmallestIsLex(x: int, s: seq<int>, key: int -> int)
    requires LexAscending(s, key)
    requires forall e :: e in s ==> x < e
    ensures LexAscending(InsertByKey(x, s, key), key)
  {
    if |s| > 0 && key(x) > key(s[0]) {
      var rest := InsertByKey(x, s[1..], key);
      forall e | e in s[1..]
        ensures x < e
      {
        assert e in s;
      }
      InsertSmallestIsLex(x, s[1..], key);
      forall e | e in rest
        ensures LexBefore(s[0], e, key)
      {
        assert e in multiset(rest);
        if e != x {
          assert e in multiset(s[1..]);
          var m :| 0 <= m < |s[1..]| && s[1..][m] == e;
          assert s[m + 1] == e;
        }
      }
      ConsLex(s[0], rest, key);
    } else if |s| > 0 {
      forall e | e in s
        ensures LexBefore(x, e, key)
      {
        var m :| 0 <= m < |s| && s[m] == e;
        if m > 0 {
          assert key(s[0]) <= key(s[m]);
        }
      }
      ConsLex(x, s, key);
    }
  }

  /** Ordered by (key, value). */
  predicate LexBefore(a: int, b: int, key: int -> int)
  {
    key(a) < key(b) || (key(a) == key(b) && a < b)
  }

  lemma ConsLex(h: int, s: seq<int>, key: int -> int)
    requires LexAscending(s, key)
    requires forall e :: e in s ==> LexBefore(h, e, key)
    ensures LexAscending([h] + s, key)
  {
    var r := [h] + s;
    forall i, j | 0 <= i < j < |r|
      ensures LexBefore(r[i], r[j], key)
    {
      assert r[j] == s[j - 1];
      if i == 0 {
        assert s[j - 1] in s;
      } else {
        assert r[i] == s[i - 1];
      }
    }
  }
}
