/**
 * The ordering every association query uses: a stable sort that puts the
 * element with the largest key first.  This is what `Collections.sort` does
 * with a comparator of the shape `Long.compare(that.key, this.key)`: the sort
 * is stable, so elements with equal keys keep the order in which the backend
 * enumerated them.
 *
 * `SortDesc` is the reference definition (an insertion sort that takes the
 * elements from the last to the first and puts each one in front of every
 * element whose key is not larger than its own); `InsertionSort` is the
 * imperative sort the queries run.  The lemmas show that `SortDesc` is sorted,
 * a permutation and stable, and that it is the only sequence with those
 * properties, so every stable descending sort agrees with it.
 */
module Sorting {

  /** No element is followed by one with a strictly larger key. */
  predicate SortedDesc<T>(s: seq<T>, key: T -> int)
  {
    forall i, j :: 0 <= i < j < |s| ==> key(s[i]) >= key(s[j])
  }

  /** The elements of `s` whose key is `k`, in their order in `s`. */
  function WithKey<T>(s: seq<T>, key: T -> int, k: int): seq<T>
  {
    if s == [] then []
    else (if key(s[0]) == k then [s[0]] else []) + WithKey(s[1..], key, k)
  }

  /** Puts `x` in front of the first element whose key is not larger than key(x). */
  function InsertBefore<T>(s: seq<T>, x: T, key: T -> int): (r: seq<T>)
    ensures |r| == |s| + 1
    ensures multiset(r) == multiset(s) + multiset{x}
  {
    if s == [] || key(s[0]) <= key(x) then [x] + s
    else
      assert s == [s[0]] + s[1..];
      [s[0]] + InsertBefore(s[1..], x, key)
  }

  /** Stable descending sort of `s`. */
  function SortDesc<T>(s: seq<T>, key: T -> int): (r: seq<T>)
    ensures |r| == |s|
    ensures multiset(r) == multiset(s)
    ensures SortedDesc(r, key)
  {
    if s == [] then []
    else
      assert s == [s[0]] + s[1..];
      InsertKeepsSorted(SortDesc(s[1..], key), s[0], key);
      InsertBefore(SortDesc(s[1..], key), s[0], key)
  }

  lemma {:induction false} InsertKeepsSorted<T>(s: seq<T>, x: T, key: T -> int)
    requires SortedDesc(s, key)
    ensures SortedDesc(InsertBefore(s, x, key), key)
  {
    if s != [] && key(s[0]) > key(x) {
      InsertKeepsSorted(s[1..], x, key);
      InsertBehindKeepsSorted(s, x, key);
    }
  }

  lemma InsertBehindKeepsSorted<T>(s: seq<T>, x: T, key: T -> int)
    requires SortedDesc(s, key) && s != [] && key(s[0]) > key(x)
    requires SortedDesc(InsertBefore(s[1..], x, key), key)
    ensures SortedDesc(InsertBefore(s, x, key), key)
  {
    var tail := s[1..];
    var r := InsertBefore(tail, x, key);
    forall j | 0 <= j < |r| ensures key(r[j]) <= key(s[0]) {
      assert r[j] in multiset(r);
      if r[j] != x {
        assert r[j] in multiset(tail);
        var i :| 0 <= i < |tail| && tail[i] == r[j];
        assert s[i + 1] == r[j];
      }
    }
    assert InsertBefore(s, x, key) == [s[0]] + r;
  }

  lemma WithKeyCons<T>(y: T, t: seq<T>, key: T -> int, k: int)
    ensures WithKey([y] + t, key, k) == (if key(y) == k then [y] else []) + WithKey(t, key, k)
  {
    assert ([y] + t)[0] == y && ([y] + t)[1..] == t;
  }

  /** Inserting `x` puts it in front of every element of its own key. */
  lemma {:induction false} InsertIsStable<T>(s: seq<T>, x: T, key: T -> int, k: int)
    ensures WithKey(InsertBefore(s, x, key), key, k) == WithKey([x] + s, key, k)
  {
    if s != [] && key(s[0]) > key(x) {
      InsertIsStable(s[1..], x, key, k);
      InsertBehindIsStable(s, x, key, k);
    }
  }

  lemma InsertBehindIsStable<T>(s: seq<T>, x: T, key: T -> int, k: int)
    requires s != [] && key(s[0]) > key(x)
    requires WithKey(InsertBefore(s[1..], x, key), key, k) == WithKey([x] + s[1..], key, k)
    ensures WithKey(InsertBefore(s, x, key), key, k) == WithKey([x] + s, key, k)
  {
    var t := InsertBefore(s[1..], x, key);
    var w := WithKey(s[1..], key, k);
    var hx := if key(x) == k then [x] else [];
    var hs := if key(s[0]) == k then [s[0]] else [];
    assert InsertBefore(s, x, key) == [s[0]] + t;
    assert [s[0]] + s[1..] == s;
    WithKeyCons(s[0], t, key, k);
    WithKeyCons(x, s[1..], key, k);
    assert WithKey(InsertBefore(s, x, key), key, k) == hs + (hx + w);
    WithKeyCons(s[0], s[1..], key, k);
    WithKeyCons(x, s, key, k);
    assert WithKey([x] + s, key, k) == hx + (hs + w);
    if key(x) == k {
      assert hs == [];
    } else {
      assert hx == [];
    }
  }

  /** Equal keys keep their enumeration order. */
  lemma {:induction false} SortIsStable<T>(s: seq<T>, key: T -> int, k: int)
    ensures WithKey(SortDesc(s, key), key, k) == WithKey(s, key, k)
  {
    if s != [] {
      SortIsStable(s[1..], key, k);
      InsertIsStable(SortDesc(s[1..], key), s[0], key, k);
      WithKeyCons(s[0], SortDesc(s[1..], key), key, k);
      WithKeyCons(s[0], s[1..], key, k);
      assert [s[0]] + s[1..] == s;
    }
  }

  lemma {:induction false} WithKeyMember<T>(s: seq<T>, key: T -> int, k: int, x: T)
    requires x in WithKey(s, key, k)
    ensures key(x) == k && x in s
  {
    if s != [] {
      WithKeyCons(s[0], s[1..], key, k);
      assert [s[0]] + s[1..] == s;
      if x != s[0] || key(s[0]) != k {
        WithKeyMember(s[1..], key, k, x);
      }
    }
  }

  lemma WithKeyOfHead<T>(s: seq<T>, key: T -> int)
    requires s != []
    ensures WithKey(s, key, key(s[0])) == [s[0]] + WithKey(s[1..], key, key(s[0]))
  {
  }

  /** Sorted sequences that agree on the elements of every key start alike. */
  lemma HeadsAgree<T>(a: seq<T>, b: seq<T>, key: T -> int)
    requires SortedDesc(a, key) && SortedDesc(b, key) && a != [] && b != []
    requires forall k :: WithKey(a, key, k) == WithKey(b, key, k)
    ensures a[0] == b[0]
  {
    var m, n := key(a[0]), key(b[0]);
    WithKeyOfHead(a, key);
    WithKeyOfHead(b, key);
    WithKeyMember(a, key, n, b[0]);
    var i :| 0 <= i < |a| && a[i] == b[0];
    WithKeyMember(b, key, m, a[0]);
    var j :| 0 <= j < |b| && b[j] == a[0];
    assert m == n;
    assert WithKey(a, key, m)[0] == a[0] && WithKey(b, key, m)[0] == b[0];
  }

  lemma TailsAgree<T>(a: seq<T>, b: seq<T>, key: T -> int, k: int)
    requires a != [] && b != [] && a[0] == b[0]
    requires WithKey(a, key, k) == WithKey(b, key, k)
    ensures WithKey(a[1..], key, k) == WithKey(b[1..], key, k)
  {
    var p := if key(a[0]) == k then [a[0]] else [];
    WithKeyCons(a[0], a[1..], key, k);
    WithKeyCons(b[0], b[1..], key, k);
    assert [a[0]] + a[1..] == a && [b[0]] + b[1..] == b;
    assert (p + WithKey(a[1..], key, k))[|p|..] == WithKey(a[1..], key, k);
    assert (p + WithKey(b[1..], key, k))[|p|..] == WithKey(b[1..], key, k);
  }

  /**
   * Two sequences that are both sorted descending and agree on the order of
   * the elements of every key are equal.
   */
  lemma {:induction false} SortedAndStableUnique<T>(a: seq<T>, b: seq<T>, key: T -> int)
    requires SortedDesc(a, key) && SortedDesc(b, key)
    requires forall k :: WithKey(a, key, k) == WithKey(b, key, k)
    ensures a == b
  {
    if a != [] && b != [] {
      HeadsAgree(a, b, key);
      forall k ensures WithKey(a[1..], key, k) == WithKey(b[1..], key, k) {
        TailsAgree(a, b, key, k);
      }
      SortedAndStableUnique(a[1..], b[1..], key);
      assert a == [a[0]] + a[1..] && b == [b[0]] + b[1..];
    } else if a != [] {
      WithKeyOfHead(a, key);
      assert false;
    } else if b != [] {
      WithKeyOfHead(b, key);
      assert false;
    }
  }

  /**
   * Any result of a stable descending sort of `s` (sorted, and keeping the
   * order of the elements of each key) is `SortDesc(s)`.
   */
  lemma StableSortIsSortDesc<T>(s: seq<T>, r: seq<T>, key: T -> int)
    requires SortedDesc(r, key)
    requires forall k :: WithKey(r, key, k) == WithKey(s, key, k)
    ensures r == SortDesc(s, key)
  {
    forall k ensures WithKey(r, key, k) == WithKey(SortDesc(s, key), key, k) {
      SortIsStable(s, key, k);
    }
    SortedAndStableUnique(r, SortDesc(s, key), key);
  }

  lemma InsertPassesOver<T>(prefix: seq<T>, rest: seq<T>, x: T, key: T -> int)
    requires rest != [] && key(rest[0]) > key(x)
    ensures prefix + InsertBefore(rest, x, key) == (prefix + [rest[0]]) + InsertBefore(rest[1..], x, key)
  {
    var t := InsertBefore(rest[1..], x, key);
    assert InsertBefore(rest, x, key) == [rest[0]] + t;
    assert prefix + ([rest[0]] + t) == (prefix + [rest[0]]) + t;
  }

  /** Places `x` in sorted position, scanning from the front. */
  method InsertInOrder<T>(s: seq<T>, x: T, key: T -> int) returns (r: seq<T>)
    ensures r == InsertBefore(s, x, key)
  {
    var prefix, rest := [], s;
    while rest != [] && key(rest[0]) > key(x)
      invariant InsertBefore(s, x, key) == prefix + InsertBefore(rest, x, key)
      decreases |rest|
    {
      InsertPassesOver(prefix, rest, x, key);
      prefix, rest := prefix + [rest[0]], rest[1..];
    }
    r := prefix + ([x] + rest);
  }

  /** The in-place `Collections.sort` of `Graph`, on a sequence value. */
  method InsertionSort<T>(s: seq<T>, key: T -> int) returns (r: seq<T>)
    ensures r == SortDesc(s, key)
  {
    r := [];
    var i := |s|;
    while i > 0
      invariant 0 <= i <= |s|
      invariant r == SortDesc(s[i..], key)
    {
      i := i - 1;
      assert s[i..][1..] == s[i + 1..];
      r := InsertInOrder(r, s[i], key);
    }
  }
}
