/**
 * Python's `list.sort(key=..., reverse=True)`: a stable sort that puts the
 * elements with the largest key first and keeps elements with equal keys in
 * their original relative order.
 *
 * `SortDesc` is the specification: an insertion sort over sequences that
 * inserts each element after every element whose key is at least its own.
 * Its lemmas show the result is ordered, a permutation and stable, and
 * `StableSortUnique` shows that these three facts determine the result, so
 * any stable descending sort (Timsort included) produces exactly `SortDesc`.
 * `SortInPlace` sorts an array in place and is proved to produce `SortDesc`.
 */
module ListSort {

  /** Keys are non-increasing from left to right. */
  ghost predicate SortedDesc<T>(s: seq<T>, key: T -> int) {
    forall i, j :: 0 <= i < j < |s| ==> key(s[j]) <= key(s[i])
  }

  /** Inserts `x` into `t` just after the last element whose key is at least `key(x)`,
      scanning from the back as an in-place insertion sort does. */
  function Insert<T>(t: seq<T>, x: T, key: T -> int): (r: seq<T>)
    ensures |r| == |t| + 1
    decreases |t|
  {
    if t == [] || key(x) <= key(t[|t| - 1]) then t + [x]
    else Insert(t[..|t| - 1], x, key) + [t[|t| - 1]]
  }

  /** The stable, descending-by-key arrangement of `s`. */
  function SortDesc<T>(s: seq<T>, key: T -> int): (r: seq<T>)
    ensures |r| == |s|
    decreases |s|
  {
    if s == [] then [] else Insert(SortDesc(s[..|s| - 1], key), s[|s| - 1], key)
  }

  /** The elements of `s` whose key is `k`, in their order in `s`. */
  function Filter<T>(s: seq<T>, key: T -> int, k: int): seq<T>
    decreases |s|
  {
    if s == [] then []
    else Filter(s[..|s| - 1], key, k) + (if key(s[|s| - 1]) == k then [s[|s| - 1]] else [])
  }

  /** The largest key in a non-empty sequence. */
  function MaxKey<T>(s: seq<T>, key: T -> int): (m: int)
    requires |s| > 0
    ensures forall i :: 0 <= i < |s| ==> key(s[i]) <= m
    ensures exists i :: 0 <= i < |s| && key(s[i]) == m
    decreases |s|
  {
    if |s| == 1 then key(s[0])
    else
      var m' := MaxKey(s[..|s| - 1], key);
      assert forall i :: 0 <= i < |s| - 1 ==> s[..|s| - 1][i] == s[i];
      if key(s[|s| - 1]) <= m' then m' else key(s[|s| - 1])
  }

  lemma {:induction false} InsertPermutation<T>(t: seq<T>, x: T, key: T -> int)
    ensures multiset(Insert(t, x, key)) == multiset(t) + multiset{x}
    decreases |t|
  {
    if t == [] || key(x) <= key(t[|t| - 1]) {
    } else {
      var t' := t[..|t| - 1];
      InsertPermutation(t', x, key);
      assert t == t' + [t[|t| - 1]];
    }
  }

  lemma {:induction false} InsertSorted<T>(t: seq<T>, x: T, key: T -> int)
    requires SortedDesc(t, key)
    ensures SortedDesc(Insert(t, x, key), key)
    decreases |t|
  {
    if t == [] || key(x) <= key(t[|t| - 1]) {
    } else {
      var t', last := t[..|t| - 1], t[|t| - 1];
      InsertSorted(t', x, key);
      InsertPermutation(t', x, key);
      var u := Insert(t', x, key);
      forall e | e in u
        ensures key(last) <= key(e)
      {
        assert e in multiset(u);
        if e != x {
          assert e in multiset(t');
          var i :| 0 <= i < |t'| && t'[i] == e;
          assert t[i] == e;
        }
      }
      forall i, j | 0 <= i < j < |u| + 1
        ensures key((u + [last])[j]) <= key((u + [last])[i])
      {
        if j == |u| {
          assert u[i] in u;
        }
      }
    }
  }

  lemma {:induction false} InsertFilter<T>(t: seq<T>, x: T, key: T -> int, k: int)
    ensures Filter(Insert(t, x, key), key, k) == Filter(t, key, k) + (if key(x) == k then [x] else [])
    decreases |t|
  {
    if t == [] || key(x) <= key(t[|t| - 1]) {
      assert (t + [x])[..|t|] == t;
    } else {
      var t', last := t[..|t| - 1], t[|t| - 1];
      var u := Insert(t', x, key);
      var fx := if key(x) == k then [x] else [];
      var fl := if key(last) == k then [last] else [];
      InsertFilter(t', x, key, k);
      assert (u + [last])[..|u|] == u;
      assert Filter(u + [last], key, k) == Filter(u, key, k) + fl;
      assert Filter(t, key, k) == Filter(t', key, k) + fl;
      assert fx == [] || fl == [];
      assert Filter(t', key, k) + fx + fl == Filter(t', key, k) + fl + fx;
    }
  }

  /** `SortDesc` orders by non-increasing key. */
  lemma {:induction false} SortDescSorted<T>(s: seq<T>, key: T -> int)
    ensures SortedDesc(SortDesc(s, key), key)
    decreases |s|
  {
    if s != [] {
      SortDescSorted(s[..|s| - 1], key);
      InsertSorted(SortDesc(s[..|s| - 1], key), s[|s| - 1], key);
    }
  }

  /** `SortDesc` neither adds, drops nor alters an element. */
  lemma {:induction false} SortDescPermutation<T>(s: seq<T>, key: T -> int)
    ensures multiset(SortDesc(s, key)) == multiset(s)
    decreases |s|
  {
    if s != [] {
      var s' := s[..|s| - 1];
      SortDescPermutation(s', key);
      InsertPermutation(SortDesc(s', key), s[|s| - 1], key);
      assert s == s' + [s[|s| - 1]];
    }
  }

  /** `SortDesc` is stable: the elements sharing any one key keep their original order. */
  lemma {:induction false} SortDescStable<T>(s: seq<T>, key: T -> int, k: int)
    ensures Filter(SortDesc(s, key), key, k) == Filter(s, key, k)
    decreases |s|
  {
    if s != [] {
      var s' := s[..|s| - 1];
      SortDescStable(s', key, k);
      InsertFilter(SortDesc(s', key), s[|s| - 1], key, k);
    }
  }

  /** The first element of the sorted sequence carries the largest key. */
  lemma SortDescHeadIsMax<T>(s: seq<T>, key: T -> int)
    requires |s| > 0
    ensures key(SortDesc(s, key)[0]) == MaxKey(s, key)
  {
    var r := SortDesc(s, key);
    SortDescSorted(s, key);
    SortDescPermutation(s, key);
    assert r[0] in multiset(s);
    var i :| 0 <= i < |s| && s[i] == r[0];
    var m :| 0 <= m < |s| && key(s[m]) == MaxKey(s, key);
    assert s[m] in multiset(r);
    var j :| 0 <= j < |r| && r[j] == s[m];
    assert key(r[j]) <= key(r[0]);
  }

  /** Every element of `Filter(s, key, k)` is an element of `s` with key `k`. */
  lemma {:induction false} FilterMembers<T>(s: seq<T>, key: T -> int, k: int, e: T)
    requires e in Filter(s, key, k)
    ensures e in s && key(e) == k
    decreases |s|
  {
    var s' := s[..|s| - 1];
    if e in Filter(s', key, k) {
      FilterMembers(s', key, k, e);
      assert forall x :: x in s' ==> x in s;
    }
  }

  lemma FilterLast<T>(s: seq<T>, key: T -> int)
    requires s != []
    ensures Filter(s, key, key(s[|s| - 1])) == Filter(s[..|s| - 1], key, key(s[|s| - 1])) + [s[|s| - 1]]
  {
  }

  /** In a descending sequence the last element carries the smallest key. */
  lemma LastIsLeast<T>(s: seq<T>, key: T -> int, e: T)
    requires SortedDesc(s, key) && e in s
    ensures key(s[|s| - 1]) <= key(e)
  {
  }

  /** Two descending sequences that agree on every key's subsequence end with elements
      of the same key: each last element has the smallest key of both sequences. */
  lemma LastKeysAgree<T>(a: seq<T>, b: seq<T>, key: T -> int)
    requires a != [] && b != []
    requires SortedDesc(a, key) && SortedDesc(b, key)
    requires forall k :: Filter(a, key, k) == Filter(b, key, k)
    ensures key(a[|a| - 1]) == key(b[|b| - 1])
  {
    var x, y := a[|a| - 1], b[|b| - 1];
    FilterLast(a, key);
    FilterLast(b, key);
    assert y in Filter(a, key, key(y));
    FilterMembers(a, key, key(y), y);
    LastIsLeast(a, key, y);
    assert x in Filter(b, key, key(x));
    FilterMembers(b, key, key(x), x);
    LastIsLeast(b, key, x);
  }

  /** Removing last elements of equal key from two sequences with the same subsequences
      per key removes the same element and keeps the subsequences equal. */
  lemma DropLastSameFilters<T>(a': seq<T>, x: T, b': seq<T>, y: T, key: T -> int)
    requires key(x) == key(y)
    requires forall k :: Filter(a' + [x], key, k) == Filter(b' + [y], key, k)
    ensures x == y
    ensures forall k :: Filter(a', key, k) == Filter(b', key, k)
  {
    var a, b := a' + [x], b' + [y];
    var k0 := key(x);
    assert a[..|a| - 1] == a' && b[..|b| - 1] == b';
    FilterLast(a, key);
    FilterLast(b, key);
    var fa, fb := Filter(a', key, k0), Filter(b', key, k0);
    assert fa + [x] == fb + [y];
    assert fa == (fa + [x])[..|fa|];
    assert fb == (fb + [y])[..|fb|];
    forall k
      ensures Filter(a', key, k) == Filter(b', key, k)
    {
      if k != k0 {
        assert Filter(a, key, k) == Filter(a', key, k);
        assert Filter(b, key, k) == Filter(b', key, k);
      }
    }
  }

  /** Two descending sequences that agree on every key's subsequence are equal. */
  lemma {:induction false} SameFiltersSortedEqual<T>(a: seq<T>, b: seq<T>, key: T -> int)
    requires SortedDesc(a, key) && SortedDesc(b, key)
    requires forall k :: Filter(a, key, k) == Filter(b, key, k)
    ensures a == b
    decreases |a|
  {
    if a == [] || b == [] {
      if a != [] {
        FilterLast(a, key);
        assert false;
      } else if b != [] {
        FilterLast(b, key);
        assert false;
      }
    } else {
      var a', x := a[..|a| - 1], a[|a| - 1];
      var b', y := b[..|b| - 1], b[|b| - 1];
      assert a == a' + [x] && b == b' + [y];
      LastKeysAgree(a, b, key);
      DropLastSameFilters(a', x, b', y, key);
      SameFiltersSortedEqual(a', b', key);
    }
  }

  /** Any arrangement of `s` that is descending by key and stable is `SortDesc(s)`:
      the specification does not depend on which stable sort produced it. */
  lemma StableSortUnique<T>(s: seq<T>, r: seq<T>, key: T -> int)
    requires SortedDesc(r, key)
    requires forall k :: Filter(r, key, k) == Filter(s, key, k)
    ensures r == SortDesc(s, key)
  {
    SortDescSorted(s, key);
    forall k
      ensures Filter(r, key, k) == Filter(SortDesc(s, key), key, k)
    {
      SortDescStable(s, key, k);
    }
    SameFiltersSortedEqual(r, SortDesc(s, key), key);
  }

  /** One step of the backwards scan: `x` passes an element with a smaller key. */
  lemma InsertPasses<T>(t: seq<T>, x: T, key: T -> int, j: nat)
    requires 0 < j <= |t| && key(t[j - 1]) < key(x)
    ensures Insert(t[..j], x, key) + t[j..] == Insert(t[..j - 1], x, key) + t[j - 1..]
  {
    assert t[..j][..j - 1] == t[..j - 1];
    assert t[j - 1..] == [t[j - 1]] + t[j..];
  }

  /** The backwards scan stops at the front or at an element whose key is at least `key(x)`. */
  lemma InsertStops<T>(t: seq<T>, x: T, key: T -> int, j: nat)
    requires j <= |t| && (j == 0 || key(x) <= key(t[j - 1]))
    ensures Insert(t[..j], x, key) == t[..j] + [x]
  {
  }

  /** Moves `a[i]` leftwards past the elements of `a[..i]` whose key is smaller,
      leaving `a[..i + 1]` as `Insert(a[..i], a[i])` and the rest of `a` as it was. */
  method InsertAt<T>(a: array<T>, i: nat, key: T -> int)
    requires i < a.Length
    modifies a
    ensures a[..i + 1] == Insert(old(a[..i]), old(a[i]), key)
    ensures a[i + 1..] == old(a[i + 1..])
  {
    var x := a[i];
    ghost var t := a[..i];
    var j := i;
    assert t[..j] == t && t[j..] == [];
    while j > 0 && key(x) > key(a[j - 1])
      invariant 0 <= j <= i
      invariant forall k :: 0 <= k < j ==> a[k] == t[k]
      invariant forall k :: j < k <= i ==> a[k] == t[k - 1]
      invariant forall k :: i < k < a.Length ==> a[k] == old(a[k])
      invariant Insert(t, x, key) == Insert(t[..j], x, key) + t[j..]
    {
      InsertPasses(t, x, key, j);
      a[j] := a[j - 1];
      j := j - 1;
    }
    InsertStops(t, x, key, j);
    a[j] := x;
    assert a[..i + 1] == t[..j] + [x] + t[j..];
  }

  /** Sorts `a` in place, stably, largest key first. */
  method SortInPlace<T>(a: array<T>, key: T -> int)
    modifies a
    ensures a[..] == SortDesc(old(a[..]), key)
  {
    ghost var s := a[..];
    var i := 0;
    while i < a.Length
      invariant 0 <= i <= a.Length
      invariant a[..i] == SortDesc(s[..i], key)
      invariant a[i..] == s[i..]
    {
      assert s[..i + 1][..i] == s[..i];
      assert a[i] == s[i];
      InsertAt(a, i, key);
      i := i + 1;
    }
    assert a[..] == a[..a.Length];
    assert s == s[..a.Length];
  }
}
