/**
 * LINQ's OrderBy as a stable sort on an integer key, its First() on a sorted
 * sequence, and Select as a map over a sequence.
 */
module StableSort {

  /** The elements of s whose key is k, in their order in s. */
  function FilterKey<T, K(==)>(s: seq<T>, key: T -> K, k: K): (r: seq<T>)
    ensures |r| <= |s|
    ensures forall x :: x in r ==> x in s && key(x) == k
  {
    if s == [] then []
    else (if key(s[0]) == k then [s[0]] else []) + FilterKey(s[1..], key, k)
  }

  lemma {:induction false} FilterKeyAppend<T, K>(a: seq<T>, b: seq<T>, key: T -> K, k: K)
    ensures FilterKey(a + b, key, k) == FilterKey(a, key, k) + FilterKey(b, key, k)
  {
    if a == [] {
      assert a + b == b;
    } else {
      assert (a + b)[1..] == a[1..] + b;
      FilterKeyAppend(a[1..], b, key, k);
    }
  }

  lemma {:induction false} FilterKeyNone<T, K>(s: seq<T>, key: T -> K, k: K)
    requires forall i :: 0 <= i < |s| ==> key(s[i]) != k
    ensures FilterKey(s, key, k) == []
  {
    if s != [] {
      FilterKeyNone(s[1..], key, k);
    }
  }

  /** If s[i] is the first element with key k, it heads FilterKey(s, key, k). */
  lemma {:induction false} FilterKeyHead<T, K>(s: seq<T>, key: T -> K, k: K, i: nat)
    requires i < |s| && key(s[i]) == k
    requires forall j :: 0 <= j < i ==> key(s[j]) != k
    ensures |FilterKey(s, key, k)| > 0 && FilterKey(s, key, k)[0] == s[i]
  {
    if i > 0 {
      FilterKeyHead(s[1..], key, k, i - 1);
    }
  }

  /** Two elements with key k make FilterKey(s, key, k) hold at least two. */
  lemma {:induction false} FilterKeyTwo<T, K>(s: seq<T>, key: T -> K, k: K, i: nat, j: nat)
    requires i < j < |s| && key(s[i]) == k && key(s[j]) == k
    ensures |FilterKey(s, key, k)| >= 2
  {
    if i == 0 {
      assert s[j] == s[1..][j - 1];
      assert s[j] in FilterKey(s[1..], key, k) by {
        FilterKeyContains(s[1..], key, j - 1);
      }
    } else {
      FilterKeyTwo(s[1..], key, k, i - 1, j - 1);
    }
  }

  lemma {:induction false} FilterKeyContains<T, K>(s: seq<T>, key: T -> K, i: nat)
    requires i < |s|
    ensures s[i] in FilterKey(s, key, key(s[i]))
  {
    if i > 0 {
      FilterKeyContains(s[1..], key, i - 1);
    }
  }

  ghost predicate SortedBy<T>(s: seq<T>, key: T -> int) {
    forall i, j :: 0 <= i < j < |s| ==> key(s[i]) <= key(s[j])
  }

  /** Inserts x before the first element whose key is not smaller than x's. */
  function Insert<T>(x: T, s: seq<T>, key: T -> int): (r: seq<T>)
    ensures |r| == |s| + 1
  {
    if s == [] || key(x) <= key(s[0]) then [x] + s
    else [s[0]] + Insert(x, s[1..], key)
  }

  lemma {:induction false} InsertMultiset<T>(x: T, s: seq<T>, key: T -> int)
    ensures multiset(Insert(x, s, key)) == multiset(s) + multiset{x}
  {
    if s != [] && key(x) > key(s[0]) {
      InsertMultiset(x, s[1..], key);
      assert s == [s[0]] + s[1..];
    }
  }

  lemma {:induction false} InsertSorted<T>(x: T, s: seq<T>, key: T -> int)
    requires SortedBy(s, key)
    ensures SortedBy(Insert(x, s, key), key)
  {
    if s != [] && key(x) > key(s[0]) {
      var t := Insert(x, s[1..], key);
      InsertSorted(x, s[1..], key);
      InsertMultiset(x, s[1..], key);
      forall i | 0 <= i < |t| ensures key(s[0]) <= key(t[i]) {
        assert t[i] in multiset(s[1..]) + multiset{x};
        if t[i] in multiset(s[1..]) {
          var m :| 0 <= m < |s[1..]| && s[1..][m] == t[i];
          assert s[1..][m] == s[m + 1];
        }
      }
      assert Insert(x, s, key) == [s[0]] + t;
    }
  }

  lemma FilterKeyCons<T, K>(x: T, t: seq<T>, key: T -> K, k: K)
    ensures FilterKey([x] + t, key, k) == (if key(x) == k then [x] else []) + FilterKey(t, key, k)
  {
    assert ([x] + t)[1..] == t;
  }

  lemma {:induction false} InsertFilter<T>(x: T, s: seq<T>, key: T -> int, k: int)
    ensures FilterKey(Insert(x, s, key), key, k)
         == (if key(x) == k then [x] else []) + FilterKey(s, key, k)
  {
    if s == [] || key(x) <= key(s[0]) {
      FilterKeyCons(x, s, key, k);
    } else {
      var t := Insert(x, s[1..], key);
      InsertFilter(x, s[1..], key, k);
      FilterKeyCons(s[0], t, key, k);
      assert s == [s[0]] + s[1..];
      FilterKeyCons(s[0], s[1..], key, k);
      if key(x) == k {
        assert key(s[0]) != k;
        assert FilterKey(t, key, k) == [x] + FilterKey(s[1..], key, k);
      } else {
        assert FilterKey(t, key, k) == FilterKey(s[1..], key, k);
      }
    }
  }

  /**
   * LINQ OrderBy: a stable sort. The result is sorted, a permutation of s, and
   * keeps the input order among elements with equal keys.
   */
  function SortBy<T>(s: seq<T>, key: T -> int): (r: seq<T>)
    ensures |r| == |s|
    ensures SortedBy(r, key)
    ensures multiset(r) == multiset(s)
    ensures forall k :: FilterKey(r, key, k) == FilterKey(s, key, k)
  {
    if s == [] then []
    else
      var rest := SortBy(s[1..], key);
      InsertStep(s, rest, key);
      Insert(s[0], rest, key)
  }

  /** Inserting the head into the sorted tail sorts the whole sequence. */
  lemma InsertStep<T>(s: seq<T>, rest: seq<T>, key: T -> int)
    requires |s| > 0 && SortedBy(rest, key) && multiset(rest) == multiset(s[1..])
    requires forall k :: FilterKey(rest, key, k) == FilterKey(s[1..], key, k)
    ensures SortedBy(Insert(s[0], rest, key), key)
    ensures multiset(Insert(s[0], rest, key)) == multiset(s)
    ensures forall k :: FilterKey(Insert(s[0], rest, key), key, k) == FilterKey(s, key, k)
  {
    InsertSorted(s[0], rest, key);
    InsertMultiset(s[0], rest, key);
    assert s == [s[0]] + s[1..];
    forall k ensures FilterKey(Insert(s[0], rest, key), key, k) == FilterKey(s, key, k) {
      InsertFilter(s[0], rest, key, k);
      FilterKeyCons(s[0], s[1..], key, k);
    }
  }

  lemma SortByKeepsMembers<T>(s: seq<T>, key: T -> int, x: T)
    ensures x in SortBy(s, key) <==> x in s
  {
    assert x in multiset(SortBy(s, key)) <==> x in multiset(s);
  }

  /** `OrderBy(key).First()`: the first element after a stable sort, which is the earliest of minimal key. */
  function FirstByKey<T>(s: seq<T>, key: T -> int): (r: T)
    requires |s| > 0
    ensures r == s[EarliestMinimum(s, key)]
    ensures r in s && forall x :: x in s ==> key(r) <= key(x)
  {
    SortedHeadIsEarliestMinimum(s, key);
    SortBy(s, key)[0]
  }

  /** Index of the earliest element of minimal key. */
  function EarliestMinimum<T>(s: seq<T>, key: T -> int): (i: nat)
    requires |s| > 0
    ensures i < |s|
    ensures forall j :: 0 <= j < |s| ==> key(s[i]) <= key(s[j])
    ensures forall j :: 0 <= j < i ==> key(s[j]) > key(s[i])
  {
    if |s| == 1 then 0
    else
      var j := EarliestMinimum(s[1..], key) + 1;
      assert s[j] == s[1..][j - 1];
      if key(s[0]) <= key(s[j]) then 0 else j
  }

  /** The head of the stable sort is the earliest element of minimal key. */
  lemma SortedHeadIsEarliestMinimum<T>(s: seq<T>, key: T -> int)
    requires |s| > 0
    ensures SortBy(s, key)[0] == s[EarliestMinimum(s, key)]
  {
    var r := SortBy(s, key);
    var i := EarliestMinimum(s, key);
    var k := key(s[i]);
    SortByKeepsMembers(s, key, r[0]);
    var a :| 0 <= a < |s| && s[a] == r[0];
    SortByKeepsMembers(s, key, s[i]);
    var b :| 0 <= b < |r| && r[b] == s[i];
    assert key(r[0]) <= key(r[b]) by {
      if b > 0 {
        assert SortedBy(r, key);
      }
    }
    assert key(r[0]) == k;
    FilterKeyHead(s, key, k, i);
    FilterKeyHead(r, key, k, 0);
  }

  /** LINQ Select. */
  function MapSeq<A, B>(s: seq<A>, f: A -> B): (r: seq<B>)
    ensures |r| == |s|
    ensures forall i :: 0 <= i < |s| ==> r[i] == f(s[i])
  {
    if s == [] then [] else [f(s[0])] + MapSeq(s[1..], f)
  }

  lemma {:induction false} InsertMap<A, B>(x: A, s: seq<A>, f: A -> B, ka: A -> int, kb: B -> int)
    requires forall a :: ka(a) == kb(f(a))
    ensures Insert(f(x), MapSeq(s, f), kb) == MapSeq(Insert(x, s, ka), f)
  {
    if s != [] && ka(x) > ka(s[0]) {
      InsertMap(x, s[1..], f, ka, kb);
      assert MapSeq(s, f)[1..] == MapSeq(s[1..], f);
    }
  }

  /** Sorting commutes with a map that preserves the key. */
  lemma {:induction false} SortByMap<A, B>(s: seq<A>, f: A -> B, ka: A -> int, kb: B -> int)
    requires forall a :: ka(a) == kb(f(a))
    ensures SortBy(MapSeq(s, f), kb) == MapSeq(SortBy(s, ka), f)
  {
    if s != [] {
      SortByMap(s[1..], f, ka, kb);
      assert MapSeq(s, f)[1..] == MapSeq(s[1..], f);
      InsertMap(s[0], SortBy(s[1..], ka), f, ka, kb);
    }
  }
}
