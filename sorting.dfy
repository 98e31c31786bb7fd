/** `Array.prototype.sort` with a comparator of the form `(a, b) => key(a) - key(b)`.
    ECMAScript requires that sort to be stable (ECMA-262, section 23.1.3.30, since
    the 2019 edition), so it is modelled as a stable insertion sort on the key: the
    result is ordered by non-decreasing key, and elements with equal keys keep the
    order they had. A descending comparator `key(b) - key(a)` is the same sort on
    the negated key. */
module Sorting {

  import opened Sequences

  ghost predicate SortedBy<T>(s: seq<T>, key: T -> int) {
    forall i, j :: 0 <= i < j < |s| ==> key(s[i]) <= key(s[j])
  }

  /** The index before which `x` goes: the first element whose key is not
      smaller than `x`'s (so `x` precedes the elements it ties with). */
  function InsertionPoint<T>(x: T, s: seq<T>, key: T -> int): (m: nat)
    ensures m <= |s|
    ensures forall i :: 0 <= i < m ==> key(s[i]) < key(x)
    ensures m < |s| ==> key(x) <= key(s[m])
  {
    if s == [] || key(x) <= key(s[0]) then 0 else 1 + InsertionPoint(x, s[1..], key)
  }

  function Insert<T>(x: T, s: seq<T>, key: T -> int): (r: seq<T>)
    ensures |r| == |s| + 1
    ensures multiset(r) == multiset(s) + multiset{x}
    ensures SortedBy(s, key) ==> SortedBy(r, key)
  {
    var m := InsertionPoint(x, s, key);
    assert s == s[..m] + s[m..];
    var r := s[..m] + [x] + s[m..];
    assert SortedBy(s, key) ==> SortedBy(r, key) by {
      if SortedBy(s, key) {
        InsertKeepsSorted(x, s, key, m);
      }
    }
    r
  }

  lemma InsertKeepsSorted<T>(x: T, s: seq<T>, key: T -> int, m: nat)
    requires SortedBy(s, key) && m == InsertionPoint(x, s, key)
    ensures SortedBy(s[..m] + [x] + s[m..], key)
  {
    var r := s[..m] + [x] + s[m..];
    assert forall i :: 0 <= i < m ==> r[i] == s[i];
    assert r[m] == x;
    assert forall i :: m < i < |r| ==> r[i] == s[i - 1];
    assert forall i :: m < i < |r| ==> key(x) <= key(r[i]) by {
      forall i | m < i < |r| ensures key(x) <= key(r[i]) {
        assert key(x) <= key(s[m]);
        assert key(s[m]) <= key(s[i - 1]) || m == i - 1;
      }
    }
    forall i, j | 0 <= i < j < |r| ensures key(r[i]) <= key(r[j]) {
      if j < m {
        assert key(s[i]) <= key(s[j]);
      } else if i > m {
        assert key(s[i - 1]) <= key(s[j - 1]);
      } else if i < m {
        assert key(r[i]) < key(x);
      }
    }
  }

  /** The sorted permutation of `s`. */
  function SortBy<T>(s: seq<T>, key: T -> int): (r: seq<T>)
    ensures |r| == |s|
    ensures multiset(r) == multiset(s)
    ensures SortedBy(r, key)
  {
    if s == [] then []
    else
      assert s == [s[0]] + s[1..];
      Insert(s[0], SortBy(s[1..], key), key)
  }

  /** The elements of `s` whose key is `k`, in order. */
  function WithKey<T>(s: seq<T>, key: T -> int, k: int): seq<T> {
    if s == [] then []
    else (if key(s[0]) == k then [s[0]] else []) + WithKey(s[1..], key, k)
  }

  lemma {:induction false} WithKeyAppend<T>(a: seq<T>, b: seq<T>, key: T -> int, k: int)
    ensures WithKey(a + b, key, k) == WithKey(a, key, k) + WithKey(b, key, k)
  {
    if a == [] {
      assert a + b == b;
    } else {
      var head := if key(a[0]) == k then [a[0]] else [];
      var ab := a + b;
      assert ab[0] == a[0];
      assert ab[1..] == a[1..] + b;
      assert WithKey(ab, key, k) == head + WithKey(a[1..] + b, key, k);
      WithKeyAppend(a[1..], b, key, k);
      assert WithKey(a, key, k) == head + WithKey(a[1..], key, k);
      assert head + (WithKey(a[1..], key, k) + WithKey(b, key, k))
          == (head + WithKey(a[1..], key, k)) + WithKey(b, key, k);
    }
  }

  lemma {:induction false} WithKeyNone<T>(s: seq<T>, key: T -> int, k: int)
    requires forall i :: 0 <= i < |s| ==> key(s[i]) != k
    ensures WithKey(s, key, k) == []
  {
    if s != [] {
      WithKeyNone(s[1..], key, k);
    }
  }

  /** Placing `x` between `front` and `back` adds it to the elements of its key
      ahead of `back`'s, provided `front` holds none of them. */
  lemma {:induction false} WithKeyBetween<T>(front: seq<T>, x: T, back: seq<T>, key: T -> int, k: int)
    requires key(x) == k ==> forall i :: 0 <= i < |front| ==> key(front[i]) != k
    ensures WithKey(front + [x] + back, key, k)
         == (if key(x) == k then [x] else []) + WithKey(front + back, key, k)
  {
    var mid := if key(x) == k then [x] else [];
    var fx := front + [x];
    var wf, wx, wb := WithKey(front, key, k), WithKey([x], key, k), WithKey(back, key, k);
    assert wx == mid by {
      assert [x][0] == x && [x][1..] == [];
      assert WithKey([x][1..], key, k) == [];
      assert wx == mid + WithKey([x][1..], key, k);
    }
    WithKeyAppend(front, [x], key, k);
    WithKeyAppend(fx, back, key, k);
    WithKeyAppend(front, back, key, k);
    assert WithKey(fx + back, key, k) == (wf + wx) + wb;
    assert WithKey(front + back, key, k) == wf + wb;
    if key(x) == k {
      WithKeyNone(front, key, k);
      assert (wf + wx) + wb == mid + (wf + wb) by {
        assert wf == [];
        assert wf + wx == wx && wf + wb == wb;
      }
    } else {
      assert (wf + wx) + wb == mid + (wf + wb) by {
        assert wx == [] && mid == [];
        assert wf + wx == wf && mid + (wf + wb) == wf + wb;
      }
    }
  }

  lemma {:induction false} InsertWithKey<T>(x: T, s: seq<T>, key: T -> int, k: int)
    ensures WithKey(Insert(x, s, key), key, k)
         == (if key(x) == k then [x] else []) + WithKey(s, key, k)
  {
    var m := InsertionPoint(x, s, key);
    assert s == s[..m] + s[m..];
    WithKeyBetween(s[..m], x, s[m..], key, k);
  }

  /** Stability: among elements with one key, the sort keeps their original order. */
  lemma {:induction false} SortByIsStable<T>(s: seq<T>, key: T -> int, k: int)
    ensures WithKey(SortBy(s, key), key, k) == WithKey(s, key, k)
  {
    if s != [] {
      SortByIsStable(s[1..], key, k);
      InsertWithKey(s[0], SortBy(s[1..], key), key, k);
    }
  }

  /** A subsequence of a sorted sequence is sorted. */
  lemma {:induction false} SubsequenceSorted<T>(a: seq<T>, b: seq<T>, key: T -> int)
    requires IsSubsequence(a, b) && SortedBy(b, key)
    ensures SortedBy(a, key)
    decreases |b|
  {
    if a != [] {
      if a[0] == b[0] && IsSubsequence(a[1..], b[1..]) {
        SubsequenceSorted(a[1..], b[1..], key);
        SubsequenceMembers(a[1..], b[1..]);
        forall j | 0 < j < |a| ensures key(a[0]) <= key(a[j]) {
          assert a[j] in a[1..];
          var jb :| 0 <= jb < |b[1..]| && b[1..][jb] == a[j];
          assert b[jb + 1] == a[j];
        }
      } else {
        SubsequenceSorted(a, b[1..], key);
      }
    }
  }

  /** No two elements of `s` share an `f`-value. */
  ghost predicate DistinctBy<T, U>(s: seq<T>, f: T -> U) {
    forall i, j :: 0 <= i < j < |s| ==> f(s[i]) != f(s[j])
  }

  /** Inserting an element whose `f`-value is new keeps `f`-values distinct. */
  lemma InsertPreservesDistinctBy<T, U>(x: T, s: seq<T>, key: T -> int, f: T -> U)
    requires DistinctBy(s, f)
    requires forall y :: y in s ==> f(y) != f(x)
    ensures DistinctBy(Insert(x, s, key), f)
  {
    var m := InsertionPoint(x, s, key);
    var r := s[..m] + [x] + s[m..];
    assert r == Insert(x, s, key);
    forall i, j | 0 <= i < j < |r| ensures f(r[i]) != f(r[j]) {
      if j < m {
        assert r[i] == s[i] && r[j] == s[j];
      } else if i > m {
        assert r[i] == s[i - 1] && r[j] == s[j - 1];
      } else if i == m {
        assert r[j] == s[j - 1];
      } else if j == m {
        assert r[i] == s[i];
      } else {
        assert r[i] == s[i] && r[j] == s[j - 1];
      }
    }
  }

  /** Sorting keeps `f`-values distinct. */
  lemma {:induction false} SortPreservesDistinctBy<T, U>(s: seq<T>, key: T -> int, f: T -> U)
    requires DistinctBy(s, f)
    ensures DistinctBy(SortBy(s, key), f)
  {
    if s != [] {
      var tail := SortBy(s[1..], key);
      assert DistinctBy(s[1..], f) by {
        forall i, j | 0 <= i < j < |s[1..]| ensures f(s[1..][i]) != f(s[1..][j]) {
          assert s[1..][i] == s[i + 1] && s[1..][j] == s[j + 1];
        }
      }
      SortPreservesDistinctBy(s[1..], key, f);
      forall y | y in tail ensures f(y) != f(s[0]) {
        assert y in multiset(s[1..]);
        var jy :| 0 <= jy < |s[1..]| && s[1..][jy] == y;
        assert s[jy + 1] == y;
      }
      InsertPreservesDistinctBy(s[0], tail, key, f);
    }
  }
}
