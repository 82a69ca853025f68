/**
 * Python's sorted(xs, key=f, reverse=True): a stable sort into descending
 * key order. Elements with equal keys keep their original relative order.
 */
module Sorting {

  predicate Descending<T>(s: seq<T>, key: T -> real)
  {
    forall i, j :: 0 <= i < j < |s| ==> key(s[i]) >= key(s[j])
  }

  /** The elements of s whose key is k, in their order in s. */
  function WithKey<T>(s: seq<T>, key: T -> real, k: real): seq<T>
  {
    if s == [] then []
    else (if key(s[0]) == k then [s[0]] else []) + WithKey(s[1..], key, k)
  }

  lemma {:induction false} WithKeyAppend<T>(a: seq<T>, b: seq<T>, key: T -> real, k: real)
    ensures WithKey(a + b, key, k) == WithKey(a, key, k) + WithKey(b, key, k)
  {
    if a != [] {
      assert (a + b)[1..] == a[1..] + b;
      WithKeyAppend(a[1..], b, key, k);
    } else {
      assert a + b == b;
    }
  }

  /** No element of a descending sequence headed by a key below k has key k. */
  lemma {:induction false} WithKeyAbove<T>(s: seq<T>, key: T -> real, k: real)
    requires Descending(s, key)
    requires s != [] ==> key(s[0]) < k
    ensures WithKey(s, key, k) == []
  {
    if s != [] {
      if |s| > 1 {
        assert key(s[1..][0]) <= key(s[0]);
      }
      WithKeyAbove(s[1..], key, k);
    }
  }

  /** x placed after every element whose key is at least its own. */
  function InsertDesc<T>(s: seq<T>, x: T, key: T -> real): (r: seq<T>)
    requires Descending(s, key)
    ensures Descending(r, key)
    ensures multiset(r) == multiset(s) + multiset{x}
    ensures |r| == |s| + 1
    decreases |s|
  {
    if s == [] then [x]
    else if key(s[0]) < key(x) then [x] + s
    else
      var t := InsertDesc(s[1..], x, key);
      assert s == [s[0]] + s[1..];
      UpperBoundKept(s[0], x, s[1..], t, key);
      [s[0]] + t
  }

  lemma UpperBoundKept<T>(b: T, x: T, s: seq<T>, t: seq<T>, key: T -> real)
    requires Descending([b] + s, key) && key(x) <= key(b)
    requires multiset(t) == multiset(s) + multiset{x}
    requires Descending(t, key)
    ensures Descending([b] + t, key)
  {
    forall k | 0 <= k < |t| ensures key(t[k]) <= key(b) {
      assert t[k] in multiset(t);
      if t[k] != x {
        assert t[k] in multiset(s);
        var j :| 0 <= j < |s| && s[j] == t[k];
        assert ([b] + s)[0] == b && ([b] + s)[j + 1] == s[j];
      }
    }
    var u := [b] + t;
    forall i, j | 0 <= i < j < |u| ensures key(u[i]) >= key(u[j]) {
      if i == 0 {
        assert u[j] == t[j - 1];
      } else {
        assert u[i] == t[i - 1] && u[j] == t[j - 1];
      }
    }
  }

  /** Inserting x keeps the order of every key class and appends x to its own. */
  lemma {:induction false} InsertDescStable<T>(s: seq<T>, x: T, key: T -> real, k: real)
    requires Descending(s, key)
    ensures WithKey(InsertDesc(s, x, key), key, k)
         == WithKey(s, key, k) + (if key(x) == k then [x] else [])
    decreases |s|
  {
    var tail := if key(x) == k then [x] else [];
    if s == [] {
      assert InsertDesc(s, x, key) == [x] + s;
      WithKeyCons(x, s, key, k);
      assert tail + [] == [] + tail;
    } else if key(s[0]) < key(x) {
      assert InsertDesc(s, x, key) == [x] + s;
      WithKeyCons(x, s, key, k);
      if key(x) == k {
        WithKeyAbove(s, key, k);
        assert tail + [] == [] + tail;
      } else {
        assert [] + WithKey(s, key, k) == WithKey(s, key, k) + [];
      }
    } else {
      DescendingTail(s, key);
      var t := InsertDesc(s[1..], x, key);
      var h := if key(s[0]) == k then [s[0]] else [];
      calc {
        WithKey(InsertDesc(s, x, key), key, k);
        WithKey([s[0]] + t, key, k);
        { WithKeyCons(s[0], t, key, k); }
        h + WithKey(t, key, k);
        { InsertDescStable(s[1..], x, key, k); }
        h + (WithKey(s[1..], key, k) + tail);
        (h + WithKey(s[1..], key, k)) + tail;
        WithKey(s, key, k) + tail;
      }
    }
  }

  lemma WithKeyCons<T>(y: T, s: seq<T>, key: T -> real, k: real)
    ensures WithKey([y] + s, key, k) == (if key(y) == k then [y] else []) + WithKey(s, key, k)
  {
    assert ([y] + s)[1..] == s;
  }

  lemma DescendingTail<T>(s: seq<T>, key: T -> real)
    requires s != [] && Descending(s, key)
    ensures Descending(s[1..], key)
  {
    forall i, j | 0 <= i < j < |s| - 1 ensures key(s[1..][i]) >= key(s[1..][j]) {
      assert s[1..][i] == s[i + 1] && s[1..][j] == s[j + 1];
    }
  }

  /** sorted(s, key=key, reverse=True). */
  function SortDesc<T>(s: seq<T>, key: T -> real): (r: seq<T>)
    ensures Descending(r, key)
    ensures multiset(r) == multiset(s)
    ensures |r| == |s|
    decreases |s|
  {
    if s == [] then []
    else
      assert s == s[..|s| - 1] + [s[|s| - 1]];
      InsertDesc(SortDesc(s[..|s| - 1], key), s[|s| - 1], key)
  }

  /** The sort is stable: each key class keeps its original order. */
  lemma {:induction false} SortDescStable<T>(s: seq<T>, key: T -> real, k: real)
    ensures WithKey(SortDesc(s, key), key, k) == WithKey(s, key, k)
    decreases |s|
  {
    if s != [] {
      var init, x := s[..|s| - 1], s[|s| - 1];
      assert s == init + [x];
      var tail := if key(x) == k then [x] else [];
      assert SortDesc(s, key) == InsertDesc(SortDesc(init, key), x, key);
      InsertDescStable(SortDesc(init, key), x, key, k);
      SortDescStable(init, key, k);
      assert WithKey([x], key, k) == tail by {
        assert [x][1..] == [];
      }
      WithKeyAppend(init, [x], key, k);
    }
  }
}
