/** LINQ's `OrderByDescending(key)`: a stable sort on an integer key, largest
    key first, elements with equal keys left in their input order. Written as
    an insertion sort over sequences. */
module StableSort {

  /** Non-increasing by `key`. */
  ghost predicate SortedDesc<T>(s: seq<T>, key: T -> int) {
    forall i, j :: 0 <= i < j < |s| ==> key(s[i]) >= key(s[j])
  }

  /** The elements of `s` whose key is `k`, in their order in `s`. A sort is
      stable exactly when it leaves every such sub-sequence unchanged. */
  function WithKey<T>(s: seq<T>, key: T -> int, k: int): seq<T> {
    if s == [] then [] else KeyPart(s[0], key, k) + WithKey(s[1..], key, k)
  }

  /** `[x]` when `x` has key `k`, otherwise nothing. */
  function KeyPart<T>(x: T, key: T -> int, k: int): seq<T> {
    if key(x) == k then [x] else []
  }

  /** Inserts `x`, which precedes every element of `s` in the input, in front
      of the first element whose key is not larger than its own. */
  function Insert<T>(x: T, s: seq<T>, key: T -> int): (r: seq<T>)
    ensures |r| == |s| + 1
  {
    if s == [] then [x]
    else if key(s[0]) <= key(x) then [x] + s
    else [s[0]] + Insert(x, s[1..], key)
  }

  /** `OrderByDescending(key)`: the same elements, reordered. */
  function SortDescending<T>(s: seq<T>, key: T -> int): (r: seq<T>)
    ensures |r| == |s|
    ensures multiset(r) == multiset(s)
  {
    if s == [] then []
    else
      var sortedTail := SortDescending(s[1..], key);
      InsertPermutes(s[0], sortedTail, key);
      assert s == [s[0]] + s[1..];
      Insert(s[0], sortedTail, key)
  }

  lemma {:induction false} InsertPermutes<T>(x: T, s: seq<T>, key: T -> int)
    ensures multiset(Insert(x, s, key)) == multiset(s) + multiset{x}
  {
    if s != [] && key(s[0]) > key(x) {
      InsertPermutes(x, s[1..], key);
      assert s == [s[0]] + s[1..];
    }
  }

  lemma SortedTail<T>(s: seq<T>, key: T -> int)
    requires s != [] && SortedDesc(s, key)
    ensures SortedDesc(s[1..], key)
    ensures forall j :: 0 <= j < |s[1..]| ==> key(s[1..][j]) <= key(s[0])
  {
    forall i, j | 0 <= i < j < |s[1..]| ensures key(s[1..][i]) >= key(s[1..][j]) {
      assert s[1..][i] == s[i + 1] && s[1..][j] == s[j + 1];
    }
  }

  /** Inserting an element no larger than `b` into elements no larger than
      `b` yields elements no larger than `b`. */
  lemma {:induction false} InsertBounded<T>(x: T, s: seq<T>, key: T -> int, b: int)
    requires key(x) <= b
    requires forall j :: 0 <= j < |s| ==> key(s[j]) <= b
    ensures forall j :: 0 <= j < |Insert(x, s, key)| ==> key(Insert(x, s, key)[j]) <= b
  {
    if s != [] && key(s[0]) > key(x) {
      InsertBounded(x, s[1..], key, b);
      var r := Insert(x, s, key);
      assert r == [s[0]] + Insert(x, s[1..], key);
      forall j | 0 <= j < |r| ensures key(r[j]) <= b {
        if j > 0 { assert r[j] == Insert(x, s[1..], key)[j - 1]; }
      }
    } else if s != [] {
      var r := Insert(x, s, key);
      forall j | 0 <= j < |r| ensures key(r[j]) <= b {
        if j > 0 { assert r[j] == s[j - 1]; }
      }
    }
  }

  lemma {:induction false} InsertSorted<T>(x: T, s: seq<T>, key: T -> int)
    requires SortedDesc(s, key)
    ensures SortedDesc(Insert(x, s, key), key)
  {
    if s != [] && key(s[0]) > key(x) {
      SortedTail(s, key);
      InsertSorted(x, s[1..], key);
      var rest := Insert(x, s[1..], key);
      InsertBounded(x, s[1..], key, key(s[0]));
      var r := Insert(x, s, key);
      assert r == [s[0]] + rest;
      forall i, j | 0 <= i < j < |r| ensures key(r[i]) >= key(r[j]) {
        assert r[j] == rest[j - 1];
        if i > 0 {
          assert r[i] == rest[i - 1];
        }
      }
    } else if s != [] {
      var r := Insert(x, s, key);
      assert r == [x] + s;
      forall i, j | 0 <= i < j < |r| ensures key(r[i]) >= key(r[j]) {
        assert r[j] == s[j - 1];
        if i > 0 {
          assert r[i] == s[i - 1];
        } else {
          assert key(s[j - 1]) <= key(s[0]);
        }
      }
    }
  }

  lemma WithKeyCons<T>(h: T, t: seq<T>, key: T -> int, k: int)
    ensures WithKey([h] + t, key, k) == KeyPart(h, key, k) + WithKey(t, key, k)
  {
    assert ([h] + t)[0] == h && ([h] + t)[1..] == t;
  }

  /** Moving `x` behind a larger-keyed `h` does not reorder equal keys. */
  lemma InsertBehind<T>(h: T, x: T, rest: seq<T>, t: seq<T>, key: T -> int, k: int)
    requires key(h) > key(x)
    requires WithKey(rest, key, k) == KeyPart(x, key, k) + WithKey(t, key, k)
    ensures WithKey([h] + rest, key, k) == KeyPart(x, key, k) + WithKey([h] + t, key, k)
  {
    WithKeyCons(h, rest, key, k);
    WithKeyCons(h, t, key, k);
    assert KeyPart(h, key, k) == [] || KeyPart(x, key, k) == [];
  }

  lemma {:induction false} InsertKeepsKeyOrder<T>(x: T, s: seq<T>, key: T -> int, k: int)
    ensures WithKey(Insert(x, s, key), key, k) == KeyPart(x, key, k) + WithKey(s, key, k)
  {
    if s == [] {
      WithKeyCons(x, [], key, k);
      assert [x] + [] == [x];
    } else if key(s[0]) <= key(x) {
      WithKeyCons(x, s, key, k);
    } else {
      InsertKeepsKeyOrder(x, s[1..], key, k);
      InsertBehind(s[0], x, Insert(x, s[1..], key), s[1..], key, k);
      assert [s[0]] + s[1..] == s;
    }
  }

  /** SortDescending returns a permutation of its input, sorted non-increasing
      by key, in which elements with equal keys keep their input order. */
  lemma {:induction false} SortDescendingCorrect<T>(s: seq<T>, key: T -> int)
    ensures |SortDescending(s, key)| == |s|
    ensures multiset(SortDescending(s, key)) == multiset(s)
    ensures SortedDesc(SortDescending(s, key), key)
    ensures forall k :: WithKey(SortDescending(s, key), key, k) == WithKey(s, key, k)
  {
    if s != [] {
      SortDescendingCorrect(s[1..], key);
      var t := SortDescending(s[1..], key);
      InsertSorted(s[0], t, key);
      forall k ensures WithKey(SortDescending(s, key), key, k) == WithKey(s, key, k) {
        InsertKeepsKeyOrder(s[0], t, key, k);
      }
    }
  }
}
