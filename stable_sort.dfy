/** `Array.prototype.sort` with the comparator `(a, b) => key(b) - key(a)`:
    a stable sort into non-increasing key order. Every stable sort produces
    the same result, so an insertion sort stands for the engine's. It is
    followed, where the source takes `[0]` or `.slice(0, n)`, by the first
    element and by a prefix. */
module StableSort {

  /** `x` goes in front of the first element whose key is not greater than
      its own, so `x` stays ahead of the equal keys that came after it in the
      input. */
  function Insert<T>(x: T, s: seq<T>, key: T -> int): (r: seq<T>)
    ensures |r| == |s| + 1
    ensures multiset(r) == multiset(s) + multiset{x}
  {
    if s == [] || key(s[0]) <= key(x) then [x] + s
    else
      assert s == [s[0]] + s[1..];
      [s[0]] + Insert(x, s[1..], key)
  }

  function SortDesc<T>(s: seq<T>, key: T -> int): (r: seq<T>)
    ensures |r| == |s|
    ensures multiset(r) == multiset(s)
  {
    if s == [] then []
    else
      assert s == [s[0]] + s[1..];
      Insert(s[0], SortDesc(s[1..], key), key)
  }

  ghost predicate SortedDesc<T>(s: seq<T>, key: T -> int) {
    forall i, j :: 0 <= i < j < |s| ==> key(s[i]) >= key(s[j])
  }

  lemma {:induction false} InsertSorted<T>(x: T, s: seq<T>, key: T -> int)
    requires SortedDesc(s, key)
    ensures SortedDesc(Insert(x, s, key), key)
  {
    if s == [] || key(s[0]) <= key(x) {
    } else {
      InsertSorted(x, s[1..], key);
      var r := Insert(x, s, key);
      var t := Insert(x, s[1..], key);
      assert r == [s[0]] + t;
      forall k | 0 <= k < |t| ensures key(s[0]) >= key(t[k]) {
        assert t[k] in multiset(t);
        assert t[k] in multiset(s[1..]) + multiset{x};
        if t[k] != x {
          assert t[k] in multiset(s[1..]);
          var m :| 0 <= m < |s[1..]| && s[1..][m] == t[k];
          assert s[1 + m] == t[k];
        }
      }
    }
  }

  /** The result is in non-increasing key order. */
  lemma {:induction false} SortDescSorted<T>(s: seq<T>, key: T -> int)
    ensures SortedDesc(SortDesc(s, key), key)
  {
    if s != [] {
      SortDescSorted(s[1..], key);
      InsertSorted(s[0], SortDesc(s[1..], key), key);
    }
  }

  /** Index of the first element whose key is the greatest. */
  function FirstMaxIndex<T>(s: seq<T>, key: T -> int): (i: nat)
    requires s != []
    ensures i < |s|
    ensures forall j :: 0 <= j < |s| ==> key(s[j]) <= key(s[i])
    ensures forall j :: 0 <= j < i ==> key(s[j]) < key(s[i])
  {
    if |s| == 1 then 0
    else
      var k := FirstMaxIndex(s[1..], key);
      if key(s[0]) >= key(s[1..][k]) then 0 else k + 1
  }

  lemma InsertHead<T>(x: T, s: seq<T>, key: T -> int)
    ensures Insert(x, s, key)[0] == if s == [] || key(s[0]) <= key(x) then x else s[0]
  {
  }

  /** Stability where the source relies on it: the first element of the sorted
      list is the EARLIEST element with the greatest key. */
  lemma {:induction false} SortDescHead<T>(s: seq<T>, key: T -> int)
    requires s != []
    ensures SortDesc(s, key)[0] == s[FirstMaxIndex(s, key)]
  {
    InsertHead(s[0], SortDesc(s[1..], key), key);
    if |s| > 1 {
      SortDescHead(s[1..], key);
    }
  }

  /** The elements whose key is `k`, in their order. */
  function WithKey<T>(s: seq<T>, key: T -> int, k: int): seq<T> {
    if s == [] then [] else (if key(s[0]) == k then [s[0]] else []) + WithKey(s[1..], key, k)
  }

  /** `x` lands ahead of every element of its own key. */
  lemma {:induction false} InsertWithKey<T>(x: T, s: seq<T>, key: T -> int, k: int)
    ensures WithKey(Insert(x, s, key), key, k) == (if key(x) == k then [x] else []) + WithKey(s, key, k)
  {
    if s == [] || key(s[0]) <= key(x) {
      WithKeyCons(x, s, key, k);
    } else {
      InsertBelow(x, s, key);
      InsertWithKey(x, s[1..], key, k);
      WithKeyPassing(s[0], s[1..], Insert(x, s[1..], key), x, key, k);
      assert [s[0]] + s[1..] == s;
    }
  }

  lemma InsertBelow<T>(x: T, s: seq<T>, key: T -> int)
    requires s != [] && key(s[0]) > key(x)
    ensures Insert(x, s, key) == [s[0]] + Insert(x, s[1..], key)
  {
  }

  /** An element of greater key than `x` passes it unchanged. */
  lemma WithKeyPassing<T>(y: T, t: seq<T>, below: seq<T>, x: T, key: T -> int, k: int)
    requires key(y) > key(x)
    requires WithKey(below, key, k) == (if key(x) == k then [x] else []) + WithKey(t, key, k)
    ensures WithKey([y] + below, key, k) == (if key(x) == k then [x] else []) + WithKey([y] + t, key, k)
  {
    WithKeyCons(y, below, key, k);
    WithKeyCons(y, t, key, k);
  }

  lemma WithKeyCons<T>(y: T, t: seq<T>, key: T -> int, k: int)
    ensures WithKey([y] + t, key, k) == (if key(y) == k then [y] else []) + WithKey(t, key, k)
  {
    assert ([y] + t)[1..] == t;
  }

  /** Stability: elements of equal key keep their input order, so the
      sorted list read for one key is the input read for that key. */
  lemma {:induction false} SortDescStable<T>(s: seq<T>, key: T -> int, k: int)
    ensures WithKey(SortDesc(s, key), key, k) == WithKey(s, key, k)
  {
    if s != [] {
      SortDescStable(s[1..], key, k);
      InsertWithKey(s[0], SortDesc(s[1..], key), key, k);
    }
  }

  /** `.slice(0, n)` */
  function Take<T>(s: seq<T>, n: nat): (r: seq<T>)
    ensures |r| == if |s| <= n then |s| else n
    ensures forall i :: 0 <= i < |r| ==> r[i] == s[i]
  {
    if |s| <= n then s else s[..n]
  }

  lemma {:induction false} WithKeyPrefix<T>(s: seq<T>, key: T -> int, k: int, n: nat)
    requires n <= |s|
    ensures WithKey(s[..n], key, k) <= WithKey(s, key, k)
  {
    if n > 0 {
      assert s[..n][1..] == s[1..][..n - 1];
      WithKeyPrefix(s[1..], key, k, n - 1);
    }
  }

  /** What the slice keeps of one key is the first of that key in the
      input, in input order. */
  lemma TopStable<T>(s: seq<T>, key: T -> int, k: int, n: nat)
    ensures WithKey(Take(SortDesc(s, key), n), key, k) <= WithKey(s, key, k)
  {
    var r := SortDesc(s, key);
    if n < |r| {
      WithKeyPrefix(r, key, k, n);
    }
    SortDescStable(s, key, k);
  }

  lemma NotInPrefix<T>(r: seq<T>, n: nat, x: T)
    requires n <= |r|
    requires x in multiset(r) - multiset(r[..n])
    ensures x in multiset(r[n..])
  {
    assert r == r[..n] + r[n..];
    assert multiset(r) == multiset(r[..n]) + multiset(r[n..]);
  }

  lemma SortedSuffixBound<T>(r: seq<T>, key: T -> int, n: nat, x: T)
    requires SortedDesc(r, key)
    requires 0 < n <= |r|
    requires x in multiset(r[n..])
    ensures key(x) <= key(r[n - 1])
  {
    var m :| 0 <= m < |r[n..]| && r[n..][m] == x;
    assert r[n + m] == x;
  }

  /** The first `n` of the sorted list are the top `n`: nothing left out has a
      greater key than the last one kept. */
  lemma TopBound<T>(s: seq<T>, key: T -> int, n: nat, x: T)
    requires 0 < n < |s|
    requires x in multiset(s) - multiset(Take(SortDesc(s, key), n))
    ensures key(x) <= key(Take(SortDesc(s, key), n)[n - 1])
  {
    var r := SortDesc(s, key);
    assert Take(r, n) == r[..n];
    NotInPrefix(r, n, x);
    SortDescSorted(s, key);
    SortedSuffixBound(r, key, n, x);
  }

  lemma {:induction false} DistinctCount<T>(s: seq<T>, x: T)
    requires forall i, j :: 0 <= i < j < |s| ==> s[i] != s[j]
    ensures multiset(s)[x] <= 1
  {
    if s != [] {
      var init := s[..|s| - 1];
      DistinctCount(init, x);
      assert s == init + [s[|s| - 1]];
      if s[|s| - 1] == x {
        assert x !in init;
      }
    }
  }

  lemma TwiceCount<T>(s: seq<T>, i: nat, j: nat)
    requires i < j < |s| && s[i] == s[j]
    ensures multiset(s)[s[i]] >= 2
  {
    assert s == s[..j] + [s[j]] + s[j + 1..];
    assert s[i] in multiset(s[..j]);
  }

  /** Sorting a list without repeated elements repeats none. */
  lemma SortDescDistinct<T>(s: seq<T>, key: T -> int, i: nat, j: nat)
    requires forall i, j :: 0 <= i < j < |s| ==> s[i] != s[j]
    requires i < j < |SortDesc(s, key)|
    ensures SortDesc(s, key)[i] != SortDesc(s, key)[j]
  {
    var r := SortDesc(s, key);
    if r[i] == r[j] {
      TwiceCount(r, i, j);
      DistinctCount(s, r[i]);
      assert false;
    }
  }
}
