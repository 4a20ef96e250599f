/** A stable sort by an integer key, the behaviour of Python's `sorted(xs, key=...)` and of
    `heapq.nlargest`, which `Counter.most_common` uses: the result is ordered by key, is a
    permutation of the input, and elements with equal keys keep their input order. */
module Sorting {

  ghost predicate SortedBy<T>(s: seq<T>, key: T -> int) {
    forall i, j :: 0 <= i < j < |s| ==> key(s[i]) <= key(s[j])
  }

  /** The elements of `s` whose key is `k`, in the order of `s`. */
  function WithKey<T>(s: seq<T>, key: T -> int, k: int): (r: seq<T>)
    ensures |r| <= |s|
  {
    if s == [] then []
    else WithKey(s[..|s| - 1], key, k) + (if key(s[|s| - 1]) == k then [s[|s| - 1]] else [])
  }

  /** Inserts `x` after every element whose key is at most its own, up to the first
      element with a greater key. */
  function Insert<T>(s: seq<T>, x: T, key: T -> int): (r: seq<T>)
    ensures |r| == |s| + 1
    ensures multiset(r) == multiset(s) + multiset{x}
  {
    if s == [] then [x]
    else if key(x) < key(s[0]) then [x] + s
    else
      assert s == [s[0]] + s[1..];
      [s[0]] + Insert(s[1..], x, key)
  }

  /** Inserting into a sorted sequence keeps it sorted. */
  lemma {:induction false} InsertSorted<T>(s: seq<T>, x: T, key: T -> int)
    requires SortedBy(s, key)
    ensures SortedBy(Insert(s, x, key), key)
  {
    if s != [] && key(s[0]) <= key(x) {
      var rest := Insert(s[1..], x, key);
      InsertSorted(s[1..], x, key);
      assert Insert(s, x, key) == [s[0]] + rest;
      forall j | 0 <= j < |rest| ensures key(s[0]) <= key(rest[j]) {
        assert rest[j] in multiset(s[1..]) + multiset{x} by {
          assert rest[j] in multiset(rest);
        }
        if rest[j] != x {
          var i :| 0 <= i < |s[1..]| && s[1..][i] == rest[j];
          assert s[i + 1] == rest[j];
        }
      }
    }
  }

  /** Insertion sort: each element, in input order, is inserted after the equal keys before it. */
  function SortBy<T>(s: seq<T>, key: T -> int): (r: seq<T>)
    ensures |r| == |s|
    ensures multiset(r) == multiset(s)
    ensures SortedBy(r, key)
  {
    if s == [] then []
    else
      var init := s[..|s| - 1];
      assert s == init + [s[|s| - 1]];
      InsertSorted(SortBy(init, key), s[|s| - 1], key);
      Insert(SortBy(init, key), s[|s| - 1], key)
  }

  lemma {:induction false} WithKeyConcat<T>(a: seq<T>, b: seq<T>, key: T -> int, k: int)
    ensures WithKey(a + b, key, k) == WithKey(a, key, k) + WithKey(b, key, k)
  {
    if b == [] {
      assert a + b == a;
    } else {
      assert (a + b)[..|a + b| - 1] == a + b[..|b| - 1];
      WithKeyConcat(a, b[..|b| - 1], key, k);
    }
  }

  lemma WithKeySingle<T>(x: T, key: T -> int, k: int)
    ensures WithKey([x], key, k) == if key(x) == k then [x] else []
  {
    assert [x][..0] == [];
  }

  /** A run of keys all above `k` has nothing with key `k`. */
  lemma {:induction false} WithKeyAbove<T>(s: seq<T>, key: T -> int, k: int)
    requires forall i :: 0 <= i < |s| ==> key(s[i]) > k
    ensures WithKey(s, key, k) == []
  {
    if s != [] {
      WithKeyAbove(s[..|s| - 1], key, k);
    }
  }

  /** Inserting `x` adds it at the end of its own key's run and leaves the other runs alone. */
  lemma {:induction false} InsertWithKey<T>(s: seq<T>, x: T, key: T -> int, k: int)
    requires SortedBy(s, key)
    ensures WithKey(Insert(s, x, key), key, k) == WithKey(s, key, k) + (if key(x) == k then [x] else [])
  {
    WithKeySingle(x, key, k);
    if s == [] {
      assert Insert(s, x, key) == [x];
      assert WithKey(s, key, k) == [];
    } else if key(x) < key(s[0]) {
      assert Insert(s, x, key) == [x] + s;
      WithKeyConcat([x], s, key, k);
      if key(x) == k {
        forall i | 0 <= i < |s| ensures key(s[i]) > k {
          assert key(s[0]) <= key(s[i]);
        }
        WithKeyAbove(s, key, k);
      }
    } else {
      var rest := Insert(s[1..], x, key);
      assert Insert(s, x, key) == [s[0]] + rest;
      SortedTail(s, key);
      InsertWithKey(s[1..], x, key, k);
      WithKeyCons(s, rest, key, k, if key(x) == k then [x] else []);
    }
  }

  lemma SortedTail<T>(s: seq<T>, key: T -> int)
    requires s != [] && SortedBy(s, key)
    ensures SortedBy(s[1..], key)
  {
    forall i, j | 0 <= i < j < |s| - 1 ensures key(s[1..][i]) <= key(s[1..][j]) {
      assert s[1..][i] == s[i + 1] && s[1..][j] == s[j + 1];
    }
  }

  /** Putting the same head in front of a tail and of that tail extended by `extra` keeps
      the extension at the end of the filtered result. */
  lemma WithKeyCons<T>(s: seq<T>, rest: seq<T>, key: T -> int, k: int, extra: seq<T>)
    requires s != []
    requires WithKey(rest, key, k) == WithKey(s[1..], key, k) + extra
    ensures WithKey([s[0]] + rest, key, k) == WithKey(s, key, k) + extra
  {
    WithKeyConcat([s[0]], rest, key, k);
    WithKeyConcat([s[0]], s[1..], key, k);
    assert [s[0]] + s[1..] == s;
  }

  /** Stability: for every key, the elements carrying it appear in the same order as in the input. */
  lemma {:induction false} SortByStable<T>(s: seq<T>, key: T -> int, k: int)
    ensures WithKey(SortBy(s, key), key, k) == WithKey(s, key, k)
  {
    if s != [] {
      var init := s[..|s| - 1];
      SortByStable(init, key, k);
      InsertWithKey(SortBy(init, key), s[|s| - 1], key, k);
    }
  }

  /** Cutting a sorted sequence anywhere leaves no key in front above a key behind. */
  lemma SortedSplit<T>(s: seq<T>, key: T -> int, k: int)
    requires SortedBy(s, key) && 0 <= k <= |s|
    ensures forall a, c :: a in s[..k] && c in s[k..] ==> key(a) <= key(c)
  {
    forall a, c | a in s[..k] && c in s[k..] ensures key(a) <= key(c) {
      var i :| 0 <= i < k && s[..k][i] == a;
      var j :| 0 <= j < |s| - k && s[k..][j] == c;
      assert s[i] == a && s[k + j] == c;
    }
  }

  /** `a` occurs in `s` at some position before some occurrence of `b`. */
  ghost predicate Before<T>(s: seq<T>, a: T, b: T) {
    exists p, q :: 0 <= p < q < |s| && s[p] == a && s[q] == b
  }

  lemma {:induction false} WithKeyMembers<T>(s: seq<T>, key: T -> int, k: int)
    ensures forall x :: x in WithKey(s, key, k) <==> x in s && key(x) == k
  {
    if s != [] {
      var init := s[..|s| - 1];
      WithKeyMembers(init, key, k);
      assert s == init + [s[|s| - 1]];
    }
  }

  /** Two elements with the same key keep their order in that key's run. */
  lemma {:induction false} WithKeyBefore<T>(s: seq<T>, key: T -> int, i: int, j: int)
    requires 0 <= i < j < |s| && key(s[i]) == key(s[j])
    ensures Before(WithKey(s, key, key(s[i])), s[i], s[j])
  {
    var k := key(s[i]);
    var init := s[..|s| - 1];
    var w := WithKey(init, key, k);
    if j == |s| - 1 {
      WithKeyMembers(init, key, k);
      assert s[i] == init[i];
      var p :| 0 <= p < |w| && w[p] == s[i];
      assert WithKey(s, key, k) == w + [s[j]];
      assert WithKey(s, key, k)[p] == s[i] && WithKey(s, key, k)[|w|] == s[j];
    } else {
      WithKeyBefore(init, key, i, j);
      assert init[i] == s[i] && init[j] == s[j];
      var p, q :| 0 <= p < q < |w| && w[p] == s[i] && w[q] == s[j];
      var tail := if key(s[|s| - 1]) == k then [s[|s| - 1]] else [];
      assert WithKey(s, key, k) == w + tail;
      assert WithKey(s, key, k)[p] == s[i] && WithKey(s, key, k)[q] == s[j];
    }
  }

  /** An order seen in a key's run is an order of the whole sequence. */
  lemma {:induction false} BeforeInWithKey<T>(s: seq<T>, key: T -> int, k: int, a: T, b: T)
    requires Before(WithKey(s, key, k), a, b)
    ensures Before(s, a, b)
  {
    var init := s[..|s| - 1];
    var w := WithKey(init, key, k);
    var p, q :| 0 <= p < q < |WithKey(s, key, k)| && WithKey(s, key, k)[p] == a && WithKey(s, key, k)[q] == b;
    var tail := if key(s[|s| - 1]) == k then [s[|s| - 1]] else [];
    assert WithKey(s, key, k) == w + tail;
    if q < |w| {
      assert w[p] == a && w[q] == b;
      BeforeInWithKey(init, key, k, a, b);
      var p', q' :| 0 <= p' < q' < |init| && init[p'] == a && init[q'] == b;
      assert s[p'] == a && s[q'] == b;
    } else {
      assert b == s[|s| - 1];
      WithKeyMembers(init, key, k);
      assert w[p] == a && a in w;
      assert a in init;
      var p' :| 0 <= p' < |init| && init[p'] == a;
      assert s[p'] == a;
    }
  }

  /** Stability, position by position: two elements with equal keys come out of the sort in
      the order they went in. */
  lemma SortByKeepsTies<T>(s: seq<T>, key: T -> int, i: int, j: int)
    requires 0 <= i < j < |SortBy(s, key)|
    requires key(SortBy(s, key)[i]) == key(SortBy(s, key)[j])
    ensures Before(s, SortBy(s, key)[i], SortBy(s, key)[j])
  {
    var t := SortBy(s, key);
    var k := key(t[i]);
    WithKeyBefore(t, key, i, j);
    SortByStable(s, key, k);
    BeforeInWithKey(s, key, k, t[i], t[j]);
  }
}
