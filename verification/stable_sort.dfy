/** A stable sort into non-increasing key order: what
    `Array.prototype.sort` (stable since ECMAScript 2019) does with the
    comparator `(a, b) => key(b) - key(a)`. Stability is stated per key:
    the elements that share a key come out in the order they went in. */
module StableSort {

  predicate SortedDesc<T>(s: seq<T>, key: T -> int) {
    forall i, j :: 0 <= i < j < |s| ==> key(s[i]) >= key(s[j])
  }

  /** The elements whose key is `k`, in their order in `s`. */
  function WithKey<T>(s: seq<T>, key: T -> int, k: int): seq<T> {
    if s == [] then []
    else (if key(s[0]) == k then [s[0]] else []) + WithKey(s[1..], key, k)
  }

  /** `WithKey` picks only elements of `s` that have key `k`. */
  lemma {:induction false} WithKeyMembers<T>(s: seq<T>, key: T -> int, k: int, x: T)
    requires x in WithKey(s, key, k)
    ensures x in s && key(x) == k
  {
    if s != [] {
      if x !in WithKey(s[1..], key, k) {
        assert x == s[0];
      } else {
        WithKeyMembers(s[1..], key, k, x);
      }
    }
  }

  /** Every element shows up under its own key. */
  lemma {:induction false} InWithKey<T>(s: seq<T>, key: T -> int, i: int)
    requires 0 <= i < |s|
    ensures s[i] in WithKey(s, key, key(s[i]))
  {
    if i > 0 {
      InWithKey(s[1..], key, i - 1);
    }
  }

  /** Places `x` before the first element whose key is not larger. */
  function Insert<T>(x: T, s: seq<T>, key: T -> int): (r: seq<T>)
    requires SortedDesc(s, key)
    ensures SortedDesc(r, key)
    ensures multiset(r) == multiset(s) + multiset{x}
  {
    if s == [] || key(s[0]) <= key(x) then
      assert ([x] + s)[1..] == s;
      [x] + s
    else
      var tail := Insert(x, s[1..], key);
      InsertStepSorted(x, s, key, tail);
      assert s == [s[0]] + s[1..];
      [s[0]] + tail
  }

  /** Insertion is stable: `x` goes in front of the elements that share its
      key, and every other key keeps its elements. */
  lemma {:induction false} InsertStable<T>(x: T, s: seq<T>, key: T -> int)
    requires SortedDesc(s, key)
    ensures forall k :: WithKey(Insert(x, s, key), key, k) == (if key(x) == k then [x] else []) + WithKey(s, key, k)
  {
    if s == [] || key(s[0]) <= key(x) {
      forall k
        ensures WithKey([x] + s, key, k) == (if key(x) == k then [x] else []) + WithKey(s, key, k)
      {
        WithKeyCons(x, s, key, k);
      }
    } else {
      var tail := Insert(x, s[1..], key);
      InsertStable(x, s[1..], key);
      InsertStepStable(x, s, key, tail);
    }
  }

  lemma InsertStepSorted<T>(x: T, s: seq<T>, key: T -> int, tail: seq<T>)
    requires SortedDesc(s, key) && s != [] && key(s[0]) > key(x)
    requires SortedDesc(tail, key) && multiset(tail) == multiset(s[1..]) + multiset{x}
    ensures SortedDesc([s[0]] + tail, key)
  {
    forall j | 0 <= j < |tail|
      ensures key(s[0]) >= key(tail[j])
    {
      assert tail[j] in multiset(tail);
      if tail[j] != x {
        assert tail[j] in multiset(s[1..]);
        var m :| 0 <= m < |s[1..]| && s[1..][m] == tail[j];
        assert s[m + 1] == tail[j];
      }
    }
    var r := [s[0]] + tail;
    forall i, j | 0 <= i < j < |r|
      ensures key(r[i]) >= key(r[j])
    {
      if i > 0 {
        assert r[i] == tail[i - 1] && r[j] == tail[j - 1];
      } else {
        assert r[j] == tail[j - 1];
      }
    }
  }

  lemma InsertStepStable<T>(x: T, s: seq<T>, key: T -> int, tail: seq<T>)
    requires s != [] && key(s[0]) > key(x)
    requires forall k :: WithKey(tail, key, k) == (if key(x) == k then [x] else []) + WithKey(s[1..], key, k)
    ensures forall k :: WithKey([s[0]] + tail, key, k) == (if key(x) == k then [x] else []) + WithKey(s, key, k)
  {
    forall k
      ensures WithKey([s[0]] + tail, key, k) == (if key(x) == k then [x] else []) + WithKey(s, key, k)
    {
      InsertStepStableAt(x, s, key, tail, k);
    }
  }

  /** One key of `InsertStepStable`: `s[0]` outranks `x`, so the two can
      only share a key list when they differ in key. */
  lemma InsertStepStableAt<T>(x: T, s: seq<T>, key: T -> int, tail: seq<T>, k: int)
    requires s != [] && key(s[0]) > key(x)
    requires WithKey(tail, key, k) == (if key(x) == k then [x] else []) + WithKey(s[1..], key, k)
    ensures WithKey([s[0]] + tail, key, k) == (if key(x) == k then [x] else []) + WithKey(s, key, k)
  {
    var h := if key(s[0]) == k then [s[0]] else [];
    var xs := if key(x) == k then [x] else [];
    var rest := WithKey(s[1..], key, k);
    WithKeyCons(s[0], tail, key, k);
    WithKeyCons(s[0], s[1..], key, k);
    assert [s[0]] + s[1..] == s;
    if key(x) == k {
      assert h == [];
      assert h + (xs + rest) == xs + (h + rest);
    } else {
      assert xs == [];
      assert h + (xs + rest) == xs + (h + rest);
    }
  }

  /** `WithKey` of a sequence with a given first element. */
  lemma WithKeyCons<T>(y: T, t: seq<T>, key: T -> int, k: int)
    ensures WithKey([y] + t, key, k) == (if key(y) == k then [y] else []) + WithKey(t, key, k)
  {
    assert ([y] + t)[1..] == t;
  }

  /** Insertion sort into non-increasing key order. */
  function SortDesc<T>(s: seq<T>, key: T -> int): (r: seq<T>)
    ensures SortedDesc(r, key)
    ensures multiset(r) == multiset(s)
    ensures forall k :: WithKey(r, key, k) == WithKey(s, key, k)
  {
    if s == [] then []
    else
      assert s == [s[0]] + s[1..];
      InsertStable(s[0], SortDesc(s[1..], key), key);
      Insert(s[0], SortDesc(s[1..], key), key)
  }

  /** The three properties fix the order completely: two sequences that are
      both sorted and agree on the elements of every key are equal. So any
      stable sort by this comparator yields exactly `SortDesc`. */
  lemma {:induction false} SortedStableUnique<T>(a: seq<T>, b: seq<T>, key: T -> int)
    requires SortedDesc(a, key) && SortedDesc(b, key)
    requires forall k :: WithKey(a, key, k) == WithKey(b, key, k)
    ensures a == b
  {
    if a == [] || b == [] {
      EmptyAgrees(a, b, key);
    } else {
      HeadsAgree(a, b, key);
      TailsAgree(a, b, key);
      SortedStableUnique(a[1..], b[1..], key);
      assert a == [a[0]] + a[1..] && b == [b[0]] + b[1..];
    }
  }

  /** An empty sequence agrees per key only with another empty one. */
  lemma EmptyAgrees<T>(a: seq<T>, b: seq<T>, key: T -> int)
    requires a == [] || b == []
    requires forall k :: WithKey(a, key, k) == WithKey(b, key, k)
    ensures a == b
  {
    if a != [] {
      InWithKey(a, key, 0);
    } else if b != [] {
      InWithKey(b, key, 0);
    }
  }

  /** With equal heads, the tails agree per key as well. */
  lemma TailsAgree<T>(a: seq<T>, b: seq<T>, key: T -> int)
    requires a != [] && b != [] && a[0] == b[0]
    requires forall k :: WithKey(a, key, k) == WithKey(b, key, k)
    ensures forall k :: WithKey(a[1..], key, k) == WithKey(b[1..], key, k)
  {
    forall k
      ensures WithKey(a[1..], key, k) == WithKey(b[1..], key, k)
    {
      var h := if key(a[0]) == k then [a[0]] else [];
      assert WithKey(a, key, k) == h + WithKey(a[1..], key, k);
      assert WithKey(b, key, k) == h + WithKey(b[1..], key, k);
      assert WithKey(a[1..], key, k) == WithKey(a, key, k)[|h|..];
    }
  }

  /** The first element of a sorted sequence has the largest key. */
  lemma HeadKeyIsLargest<T>(a: seq<T>, key: T -> int, x: T)
    requires SortedDesc(a, key) && a != [] && x in a
    ensures key(a[0]) >= key(x)
  {
    var j :| 0 <= j < |a| && a[j] == x;
  }

  /** Both sequences start with the same element. */
  lemma HeadsAgree<T>(a: seq<T>, b: seq<T>, key: T -> int)
    requires SortedDesc(a, key) && SortedDesc(b, key) && a != [] && b != []
    requires forall k :: WithKey(a, key, k) == WithKey(b, key, k)
    ensures a[0] == b[0]
  {
    HeadKeysAgree(a, b, key);
    WithKeyHead(a, key);
    WithKeyHead(b, key);
    var k := key(a[0]);
    assert WithKey(a, key, k)[0] == a[0];
    assert WithKey(b, key, k)[0] == b[0];
    assert WithKey(a, key, k) == WithKey(b, key, k);
  }

  /** The two first elements have the same key: each is at least the
      other's. */
  lemma HeadKeysAgree<T>(a: seq<T>, b: seq<T>, key: T -> int)
    requires SortedDesc(a, key) && SortedDesc(b, key) && a != [] && b != []
    requires forall k :: WithKey(a, key, k) == WithKey(b, key, k)
    ensures key(a[0]) == key(b[0])
  {
    InWithKey(b, key, 0);
    WithKeyMembers(a, key, key(b[0]), b[0]);
    HeadKeyIsLargest(a, key, b[0]);
    InWithKey(a, key, 0);
    WithKeyMembers(b, key, key(a[0]), a[0]);
    HeadKeyIsLargest(b, key, a[0]);
  }

  /** The first element leads the elements of its own key. */
  lemma WithKeyHead<T>(a: seq<T>, key: T -> int)
    requires a != []
    ensures WithKey(a, key, key(a[0])) == [a[0]] + WithKey(a[1..], key, key(a[0]))
  {
  }
}
