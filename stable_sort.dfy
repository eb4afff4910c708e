/** Stable sorting by an integer key: a functional insertion sort that
    specifies it, the in-place array sort that implements it, and the facts
    the file-ordering code relies on (sorted, a permutation, stable, and the
    only sequence with those properties). */
module StableSort {

  /** s is ordered by non-decreasing key. */
  predicate SortedBy<T>(s: seq<T>, key: T -> int) {
    forall i, j :: 0 <= i < j < |s| ==> key(s[i]) <= key(s[j])
  }

  /** The elements of s whose key is k, in the order they have in s. */
  function WithKey<T>(s: seq<T>, key: T -> int, k: int): seq<T> {
    if s == [] then []
    else WithKey(s[..|s| - 1], key, k) + (if key(s[|s| - 1]) == k then [s[|s| - 1]] else [])
  }

  /** s with x placed after every element whose key is at most x's, scanning
      from the right as an insertion sort does. */
  function Insert<T>(x: T, s: seq<T>, key: T -> int): seq<T> {
    if s == [] then [x]
    else if key(s[|s| - 1]) <= key(x) then s + [x]
    else Insert(x, s[..|s| - 1], key) + [s[|s| - 1]]
  }

  /** Insertion sort: the elements of s, inserted one by one from the left. */
  function SortBy<T>(s: seq<T>, key: T -> int): seq<T> {
    if s == [] then [] else Insert(s[|s| - 1], SortBy(s[..|s| - 1], key), key)
  }

  /** f applied to every element of s. */
  function MapSeq<T, U>(s: seq<T>, f: T -> U): (r: seq<U>)
    ensures |r| == |s| && forall i :: 0 <= i < |s| ==> r[i] == f(s[i])
  {
    seq(|s|, i requires 0 <= i < |s| => f(s[i]))
  }

  // ---------------------------------------------------------------------
  // Permutation

  lemma {:induction false} InsertPermutes<T>(x: T, s: seq<T>, key: T -> int)
    ensures multiset(Insert(x, s, key)) == multiset(s) + multiset{x}
  {
    if s != [] {
      var init, last := s[..|s| - 1], s[|s| - 1];
      assert s == init + [last];
      if key(last) > key(x) {
        InsertPermutes(x, init, key);
      }
    }
  }

  /** Sorting only reorders: the result is a permutation of the input. */
  lemma {:induction false} SortByPermutes<T>(s: seq<T>, key: T -> int)
    ensures multiset(SortBy(s, key)) == multiset(s)
  {
    if s != [] {
      var init, last := s[..|s| - 1], s[|s| - 1];
      assert s == init + [last];
      SortByPermutes(init, key);
      InsertPermutes(last, SortBy(init, key), key);
    }
  }

  // ---------------------------------------------------------------------
  // Order

  lemma {:induction false} InsertSorted<T>(x: T, s: seq<T>, key: T -> int)
    requires SortedBy(s, key)
    ensures SortedBy(Insert(x, s, key), key)
  {
    if s != [] && key(s[|s| - 1]) > key(x) {
      var init, last := s[..|s| - 1], s[|s| - 1];
      InsertSorted(x, init, key);
      InsertPermutes(x, init, key);
      var t := Insert(x, init, key);
      forall i | 0 <= i < |t| ensures key(t[i]) <= key(last) {
        assert t[i] in multiset(t);
        if t[i] != x {
          assert t[i] in multiset(init);
          var m :| 0 <= m < |init| && init[m] == t[i];
          assert s[m] == t[i];
        }
      }
    }
  }

  /** The result of sorting is ordered by non-decreasing key. */
  lemma {:induction false} SortBySorted<T>(s: seq<T>, key: T -> int)
    ensures SortedBy(SortBy(s, key), key)
  {
    if s != [] {
      SortBySorted(s[..|s| - 1], key);
      InsertSorted(s[|s| - 1], SortBy(s[..|s| - 1], key), key);
    }
  }

  // ---------------------------------------------------------------------
  // Stability

  lemma {:induction false} WithKeyAppend<T>(s: seq<T>, x: T, key: T -> int, k: int)
    ensures WithKey(s + [x], key, k) == WithKey(s, key, k) + (if key(x) == k then [x] else [])
  {
    assert (s + [x])[..|s|] == s;
  }

  lemma {:induction false} InsertKeepsOrder<T>(x: T, s: seq<T>, key: T -> int, k: int)
    ensures WithKey(Insert(x, s, key), key, k) == WithKey(s, key, k) + (if key(x) == k then [x] else [])
  {
    if s == [] {
      WithKeyAppend(s, x, key, k);
    } else {
      var init, last := s[..|s| - 1], s[|s| - 1];
      if key(last) <= key(x) {
        WithKeyAppend(s, x, key, k);
      } else {
        InsertKeepsOrder(x, init, key, k);
        WithKeyAppend(Insert(x, init, key), last, key, k);
      }
    }
  }

  /** Sorting is stable: the elements of any one key keep their relative order. */
  lemma {:induction false} SortByStable<T>(s: seq<T>, key: T -> int, k: int)
    ensures WithKey(SortBy(s, key), key, k) == WithKey(s, key, k)
  {
    if s != [] {
      var init, last := s[..|s| - 1], s[|s| - 1];
      SortByStable(init, key, k);
      InsertKeepsOrder(last, SortBy(init, key), key, k);
    }
  }

  lemma {:induction false} WithKeyMembers<T>(s: seq<T>, key: T -> int, k: int, x: T)
    requires x in WithKey(s, key, k)
    ensures x in s && key(x) == k
  {
    if s != [] {
      var init := s[..|s| - 1];
      if x in WithKey(init, key, k) {
        WithKeyMembers(init, key, k, x);
        assert init[..] <= s;
      }
    }
  }

  /** Two sequences sorted by key whose elements of each key appear in the
      same order are equal. */
  lemma {:induction false} SortedStableUnique<T>(t: seq<T>, u: seq<T>, key: T -> int)
    requires SortedBy(t, key) && SortedBy(u, key)
    requires forall k :: WithKey(t, key, k) == WithKey(u, key, k)
    ensures t == u
    decreases |t| + |u|
  {
    if t == [] && u == [] {
    } else if t == [] || u == [] {
      // Neither can be empty alone: its last key would select nothing in it.
      var w := if t == [] then u else t;
      LastKeySelects(w, key);
    } else {
      var kt, ku := key(t[|t| - 1]), key(u[|u| - 1]);
      // The last key of each sequence is its largest, and occurs in the other.
      LastKeyOccurs(t, u, key);
      LastKeyOccurs(u, t, key);
      assert kt == ku;
      var t', u' := t[..|t| - 1], u[..|u| - 1];
      var w := WithKey(t, key, kt);
      assert w == WithKey(t', key, kt) + [t[|t| - 1]];
      assert w == WithKey(u', key, kt) + [u[|u| - 1]];
      assert t[|t| - 1] == w[|w| - 1] == u[|u| - 1];
      forall k ensures WithKey(t', key, k) == WithKey(u', key, k) {
        if k == kt {
          assert WithKey(t', key, k) == w[..|w| - 1] == WithKey(u', key, k);
        } else {
          assert WithKey(t, key, k) == WithKey(t', key, k);
          assert WithKey(u, key, k) == WithKey(u', key, k);
        }
      }
      SortedStableUnique(t', u', key);
      assert t == t' + [t[|t| - 1]] && u == u' + [u[|u| - 1]];
    }
  }

  /** The key of a sequence's last element selects at least that element. */
  lemma LastKeySelects<T>(w: seq<T>, key: T -> int)
    requires w != []
    ensures WithKey(w, key, key(w[|w| - 1])) != []
  {
  }

  /** The key of t's last element occurs in u, so it is at most u's last key. */
  lemma LastKeyOccurs<T>(t: seq<T>, u: seq<T>, key: T -> int)
    requires t != [] && u != [] && SortedBy(u, key)
    requires forall k :: WithKey(t, key, k) == WithKey(u, key, k)
    ensures key(t[|t| - 1]) <= key(u[|u| - 1])
  {
    var k := key(t[|t| - 1]);
    assert t[|t| - 1] in WithKey(t, key, k);
    WithKeyMembers(u, key, k, t[|t| - 1]);
    var m :| 0 <= m < |u| && u[m] == t[|t| - 1];
    assert m == |u| - 1 || key(u[m]) <= key(u[|u| - 1]);
  }

  /** SortBy is the stable sort: any sequence sorted by key that keeps the
      order of each key's elements, as s has them, is SortBy(s, key). */
  lemma StableSortIsSortBy<T>(s: seq<T>, t: seq<T>, key: T -> int)
    requires SortedBy(t, key)
    requires forall k :: WithKey(t, key, k) == WithKey(s, key, k)
    ensures t == SortBy(s, key)
  {
    SortBySorted(s, key);
    forall k ensures WithKey(t, key, k) == WithKey(SortBy(s, key), key, k) {
      SortByStable(s, key, k);
    }
    SortedStableUnique(t, SortBy(s, key), key);
  }

  // ---------------------------------------------------------------------
  // Changing the key or the elements

  lemma {:induction false} InsertCongruent<T>(x: T, s: seq<T>, key1: T -> int, key2: T -> int)
    requires forall y :: y in s ==> (key1(y) <= key1(x) <==> key2(y) <= key2(x))
    ensures Insert(x, s, key1) == Insert(x, s, key2)
  {
    if s != [] {
      var init := s[..|s| - 1];
      assert s[|s| - 1] in s;
      forall y | y in init ensures y in s {
      }
      InsertCongruent(x, init, key1, key2);
    }
  }

  /** Sorting by two keys that order the elements of s alike gives the same result. */
  lemma {:induction false} SortByCongruent<T>(s: seq<T>, key1: T -> int, key2: T -> int)
    requires forall x, y :: x in s && y in s ==> (key1(x) <= key1(y) <==> key2(x) <= key2(y))
    ensures SortBy(s, key1) == SortBy(s, key2)
  {
    if s != [] {
      var init, last := s[..|s| - 1], s[|s| - 1];
      assert s == init + [last];
      SortByCongruent(init, key1, key2);
      SortByPermutes(init, key1);
      forall y | y in SortBy(init, key1) ensures y in s {
        assert y in multiset(SortBy(init, key1));
      }
      InsertCongruent(last, SortBy(init, key1), key1, key2);
    }
  }

  lemma {:induction false} InsertMap<T, U>(x: T, s: seq<T>, f: T -> U, key1: T -> int, key2: U -> int)
    requires key1(x) == key2(f(x))
    requires forall y :: y in s ==> key1(y) == key2(f(y))
    ensures MapSeq(Insert(x, s, key1), f) == Insert(f(x), MapSeq(s, f), key2)
  {
    if s == [] {
      assert MapSeq([x], f) == [f(x)];
    } else {
      var init, last := s[..|s| - 1], s[|s| - 1];
      assert last in s;
      assert MapSeq(s, f)[..|s| - 1] == MapSeq(init, f);
      if key1(last) <= key1(x) {
        assert MapSeq(s + [x], f) == MapSeq(s, f) + [f(x)];
      } else {
        forall y | y in init ensures y in s {
        }
        InsertMap(x, init, f, key1, key2);
        var t := Insert(x, init, key1);
        assert MapSeq(t + [last], f) == MapSeq(t, f) + [f(last)];
      }
    }
  }

  /** Sorting commutes with a map that carries each element's key along. */
  lemma {:induction false} SortByMap<T, U>(s: seq<T>, f: T -> U, key1: T -> int, key2: U -> int)
    requires forall y :: y in s ==> key1(y) == key2(f(y))
    ensures MapSeq(SortBy(s, key1), f) == SortBy(MapSeq(s, f), key2)
  {
    if s != [] {
      var init, last := s[..|s| - 1], s[|s| - 1];
      assert s == init + [last];
      assert last in s;
      forall y | y in init ensures y in s {
      }
      SortByMap(init, f, key1, key2);
      SortByPermutes(init, key1);
      forall y | y in SortBy(init, key1) ensures key1(y) == key2(f(y)) {
        assert y in multiset(SortBy(init, key1));
        assert y in s;
      }
      InsertMap(last, SortBy(init, key1), f, key1, key2);
      assert MapSeq(s, f)[..|s| - 1] == MapSeq(init, f);
    }
  }

  // ---------------------------------------------------------------------
  // The in-place sort

  /** Where x goes in s: after s[..j], before the elements s[j..], all of
      whose keys exceed x's. */
  lemma {:induction false} InsertSplit<T>(x: T, s: seq<T>, key: T -> int, j: nat)
    requires j <= |s|
    requires forall m :: j <= m < |s| ==> key(s[m]) > key(x)
    requires j > 0 ==> key(s[j - 1]) <= key(x)
    ensures Insert(x, s, key) == s[..j] + [x] + s[j..]
  {
    if j < |s| {
      var init := s[..|s| - 1];
      InsertSplit(x, init, key, j);
      assert s[..j] == init[..j];
      assert s[j..] == init[j..] + [s[|s| - 1]];
    } else {
      assert s[..j] == s;
    }
  }

  /** Moves a[i] left past the elements of the sorted prefix a[..i] whose
      keys exceed its own: one step of insertion sort. */
  method InsertInPlace<T>(a: array<T>, i: nat, key: T -> int)
    requires i < a.Length
    modifies a
    ensures a[..i + 1] == Insert(old(a[i]), old(a[..i]), key)
    ensures a[i + 1..] == old(a[i + 1..])
  {
    ghost var sorted := a[..i];
    var x := a[i];
    var j := i;
    while j > 0 && key(a[j - 1]) > key(x)
      invariant 0 <= j <= i
      invariant forall m :: 0 <= m < j ==> a[m] == sorted[m]
      invariant forall m :: j < m <= i ==> a[m] == sorted[m - 1]
      invariant forall m :: j <= m < i ==> key(sorted[m]) > key(x)
      invariant a[i + 1..] == old(a[i + 1..])
    {
      a[j] := a[j - 1];
      j := j - 1;
    }
    a[j] := x;
    InsertSplit(x, sorted, key, j);
    assert a[..i + 1] == sorted[..j] + [x] + sorted[j..];
  }

  /** Insertion sort of an array in place; the result is SortBy of the
      original contents. */
  method SortInPlace<T>(a: array<T>, key: T -> int)
    modifies a
    ensures a[..] == SortBy(old(a[..]), key)
  {
    ghost var original := a[..];
    var i := 0;
    while i < a.Length
      invariant 0 <= i <= a.Length
      invariant a[..i] == SortBy(original[..i], key)
      invariant a[i..] == original[i..]
    {
      assert a[i] == original[i];
      InsertInPlace(a, i, key);
      assert original[..i + 1][..i] == original[..i];
      i := i + 1;
    }
    assert a[..] == a[..a.Length] && original == original[..a.Length];
  }
}
