/**
 * Sorting keys under `Key::operator<`: a reference sort on values, the fact
 * that a sorted rearrangement of a sequence of keys is unique, and
 * `CppAD::index_sort`, which leaves the keys in place and returns the
 * permutation of their indices that visits them in order.
 */
module Sorting {
  import opened KeyOrder

  /** Insert `x` in front of the first key of `s` that it does not come after. */
  function Insert(x: Key, s: seq<Key>): (r: seq<Key>)
    ensures multiset(r) == multiset(s) + multiset{x}
  {
    if s == [] || NoLater(x, s[0]) then [x] + s
    else
      assert s == [s[0]] + s[1..];
      [s[0]] + Insert(x, s[1..])
  }

  /** Reference sort of a sequence of keys (insertion sort on values). */
  function SortKeys(s: seq<Key>): (r: seq<Key>)
    ensures multiset(r) == multiset(s)
    ensures |r| == |s|
  {
    if s == [] then []
    else
      assert s == [s[0]] + s[1..];
      Insert(s[0], SortKeys(s[1..]))
  }

  /** Every member of a sequence is at some index of it. */
  lemma MemberAt(s: seq<Key>, x: Key) returns (k: nat)
    requires x in multiset(s)
    ensures k < |s| && s[k] == x
  {
    assert x in s;
    k :| 0 <= k < |s| && s[k] == x;
  }

  lemma {:induction false} InsertSorted(x: Key, s: seq<Key>)
    requires Sorted(s)
    ensures Sorted(Insert(x, s))
  {
    if s == [] || NoLater(x, s[0]) {
      var r := [x] + s;
      forall i, j | 0 <= i < j < |r| ensures NoLater(r[i], r[j]) {
        if i == 0 {
          NoLaterIsTotalOrder(x, s[0], s[j - 1]);
        }
      }
    } else {
      var t := Insert(x, s[1..]);
      InsertSorted(x, s[1..]);
      forall k | 0 <= k < |t| ensures NoLater(s[0], t[k]) {
        assert t[k] in multiset(t);
        if t[k] != x {
          assert t[k] in multiset(s[1..]);
          var m := MemberAt(s[1..], t[k]);
          assert t[k] == s[m + 1];
        }
      }
      var r := [s[0]] + t;
      forall i, j | 0 <= i < j < |r| ensures NoLater(r[i], r[j]) {
        if i == 0 {
          assert r[j] == t[j - 1];
        } else {
          assert r[i] == t[i - 1] && r[j] == t[j - 1];
        }
      }
    }
  }

  /** The reference sort leaves its keys non-decreasing. */
  lemma {:induction false} SortKeysSorted(s: seq<Key>)
    ensures Sorted(SortKeys(s))
  {
    if s != [] {
      SortKeysSorted(s[1..]);
      InsertSorted(s[0], SortKeys(s[1..]));
    }
  }

  /** Dropping the first key keeps a sequence non-decreasing. */
  lemma SortedTail(s: seq<Key>)
    requires Sorted(s) && s != []
    ensures Sorted(s[1..])
  {
    forall p, q | 0 <= p < q < |s| - 1 ensures NoLater(s[1..][p], s[1..][q]) {
      assert s[1..][p] == s[p + 1] && s[1..][q] == s[q + 1];
    }
  }

  /** Two non-decreasing arrangements of the same keys start with the same key. */
  lemma SortedSameFirst(a: seq<Key>, b: seq<Key>)
    requires Sorted(a) && Sorted(b) && a != []
    requires multiset(a) == multiset(b)
    ensures b != [] && a[0] == b[0]
  {
    assert a[0] in multiset(b);
    var i := MemberAt(b, a[0]);
    var j := MemberAt(a, b[0]);
    assert NoLater(b[0], a[0]) && NoLater(a[0], b[0]);
    NoLaterIsTotalOrder(a[0], b[0], a[0]);
  }

  /** Removing the first key of a sequence removes one copy of it from its elements. */
  lemma MultisetTail(s: seq<Key>)
    requires s != []
    ensures multiset(s[1..]) == multiset(s) - multiset{s[0]}
  {
    assert s == [s[0]] + s[1..];
    assert multiset(s) == multiset{s[0]} + multiset(s[1..]);
  }

  /** The first step of the uniqueness proof: equal first keys, and tails that are again alike. */
  lemma SortedUniqueStep(a: seq<Key>, b: seq<Key>)
    requires Sorted(a) && Sorted(b) && a != []
    requires multiset(a) == multiset(b)
    ensures b != [] && a[0] == b[0]
    ensures multiset(a[1..]) == multiset(b[1..])
    ensures Sorted(a[1..]) && Sorted(b[1..])
  {
    SortedSameFirst(a, b);
    MultisetTail(a);
    MultisetTail(b);
    SortedTail(a);
    SortedTail(b);
  }

  /**
   * Two non-decreasing sequences holding the same keys are equal: which keys
   * end up in which position does not depend on how (or how stably) they
   * were sorted.
   */
  lemma {:induction false} SortedUnique(a: seq<Key>, b: seq<Key>)
    requires Sorted(a) && Sorted(b)
    requires multiset(a) == multiset(b)
    ensures a == b
  {
    if a == [] {
      assert |b| == |multiset(b)| == 0;
    } else {
      SortedUniqueStep(a, b);
      SortedUnique(a[1..], b[1..]);
      assert a == [a[0]] + a[1..] && b == [b[0]] + b[1..];
    }
  }

  /** The identity permutation `0, 1, ..., n - 1`. */
  function Iota(n: nat): (r: seq<nat>)
    ensures |r| == n
  {
    seq(n, i => i)
  }

  /** The keys visited in the order `ind` gives: `keys[ind[0]], keys[ind[1]], ...`. */
  ghost function Permuted(keys: seq<Key>, ind: seq<nat>): (r: seq<Key>)
    requires forall i :: 0 <= i < |ind| ==> ind[i] < |keys|
  {
    seq(|ind|, i requires 0 <= i < |ind| => keys[ind[i]])
  }

  /** Exchanging two entries keeps the elements of a sequence. */
  lemma SwapMultiset<T>(s: seq<T>, i: nat, j: nat)
    requires i < |s| && j < |s|
    ensures multiset(s[i := s[j]][j := s[i]]) == multiset(s)
  {
    var t := s[i := s[j]];
    assert t[j] == s[j];
    assert multiset(t) == multiset(s) - multiset{s[i]} + multiset{s[j]};
    assert multiset(t[j := s[i]]) == multiset(t) - multiset{s[j]} + multiset{s[i]};
  }

  /** Exchanging two indices keeps both the index multiset and the visited keys. */
  lemma SwapKeepsPermuted(keys: seq<Key>, p: seq<nat>, i: nat, j: nat)
    requires i < |p| && j < |p|
    requires forall m :: 0 <= m < |p| ==> p[m] < |keys|
    ensures multiset(p[i := p[j]][j := p[i]]) == multiset(p)
    ensures Permuted(keys, p[i := p[j]][j := p[i]]) == Permuted(keys, p)[i := keys[p[j]]][j := keys[p[i]]]
    ensures multiset(Permuted(keys, p[i := p[j]][j := p[i]])) == multiset(Permuted(keys, p))
  {
    var q := p[i := p[j]][j := p[i]];
    var v := Permuted(keys, p);
    SwapMultiset(p, i, j);
    assert Permuted(keys, q) == v[i := v[j]][j := v[i]];
    SwapMultiset(v, i, j);
  }

  /** `s` differs from `t` only by a rearrangement of the first `lim` entries. */
  ghost predicate RearrangedPrefix<T>(s: seq<T>, t: seq<T>, lim: nat) {
    && |s| == |t| && lim <= |s|
    && s[lim..] == t[lim..]
    && multiset(s[..lim]) == multiset(t[..lim])
  }

  /** Two arrangements of the same elements that agree from `lim` on agree on the elements before it. */
  lemma SameTailSamePrefix<T>(s: seq<T>, t: seq<T>, lim: nat)
    requires |s| == |t| && lim <= |s| && multiset(s) == multiset(t)
    requires forall m :: lim <= m < |s| ==> s[m] == t[m]
    ensures RearrangedPrefix(s, t, lim)
  {
    assert s[lim..] == t[lim..];
    assert s == s[..lim] + s[lim..] && t == t[..lim] + t[lim..];
    var a, b, c := multiset(s[..lim]), multiset(t[..lim]), multiset(s[lim..]);
    assert a + c == b + c;
    forall x ensures a[x] == b[x] {
      assert (a + c)[x] == a[x] + c[x] && (b + c)[x] == b[x] + c[x];
    }
    assert a == b;
  }

  /** The first `i` keys of `s` are non-decreasing. */
  ghost predicate SortedPrefix(s: seq<Key>, i: nat) {
    forall a, b :: 0 <= a < b < i && b < |s| ==> NoLater(s[a], s[b])
  }

  /**
   * The state inside one pass of the insertion sort: `s[0..i]` would be
   * non-decreasing without the key at `j`, which does not come after any key
   * to its right.
   */
  ghost predicate Sinking(s: seq<Key>, i: nat, j: nat) {
    && j <= i < |s|
    && (forall a, b :: 0 <= a < b <= i && a != j && b != j ==> NoLater(s[a], s[b]))
    && (forall b :: j < b <= i ==> NoLater(s[j], s[b]))
  }

  /** Exchanging the sinking key with a greater left neighbour moves the hole one place down. */
  lemma SinkingStep(s: seq<Key>, i: nat, j: nat)
    requires Sinking(s, i, j) && 0 < j
    requires Less(s[j], s[j - 1])
    ensures Sinking(s[j - 1 := s[j]][j := s[j - 1]], i, j - 1)
  {
    var t := s[j - 1 := s[j]][j := s[j - 1]];
    forall b | j - 1 < b <= i ensures NoLater(t[j - 1], t[b]) {
      if b > j {
        assert t[b] == s[b];
      }
    }
  }

  /** A pass ends once the sinking key is not less than its left neighbour. */
  lemma SinkingDone(s: seq<Key>, i: nat, j: nat)
    requires Sinking(s, i, j)
    requires j == 0 || NoLater(s[j - 1], s[j])
    ensures SortedPrefix(s, i + 1)
  {
    forall a, b | 0 <= a < b < i + 1 && b < |s| ensures NoLater(s[a], s[b]) {
      if b == j && a < j - 1 {
        NoLaterIsTotalOrder(s[a], s[j - 1], s[j]);
      } else if a == j {
        NoLaterIsTotalOrder(s[a], s[b], s[b]);
      }
    }
  }

  /** The bookkeeping an index sort keeps: indices in range, a permutation, the same keys visited. */
  ghost predicate IndexPermutation(keys: seq<Key>, ind: array<nat>)
    reads ind
  {
    && ind.Length == |keys|
    && (forall m :: 0 <= m < ind.Length ==> ind[m] < |keys|)
    && multiset(ind[..]) == multiset(Iota(|keys|))
    && multiset(Permuted(keys, ind[..])) == multiset(keys)
  }

  /** Exchange two entries of the index array. */
  method SwapIndices(keys: seq<Key>, ind: array<nat>, i: nat, j: nat)
    requires i < ind.Length && j < ind.Length
    requires IndexPermutation(keys, ind)
    modifies ind
    ensures IndexPermutation(keys, ind)
    ensures ind[..] == old(ind[..])[i := old(ind[j])][j := old(ind[i])]
    ensures forall m :: 0 <= m < ind.Length && m != i && m != j ==> ind[m] == old(ind[m])
    ensures var view := old(Permuted(keys, ind[..]));
      Permuted(keys, ind[..]) == view[i := view[j]][j := view[i]]
  {
    ghost var before := ind[..];
    SwapKeepsPermuted(keys, before, i, j);
    ind[i], ind[j] := ind[j], ind[i];
    assert ind[..] == before[i := before[j]][j := before[i]];
  }

  /** One step of a pass: exchange the sinking index with its greater left neighbour. */
  method SinkStep(keys: seq<Key>, ind: array<nat>, i: nat, j: nat)
    requires 0 < j <= i < ind.Length
    requires IndexPermutation(keys, ind)
    requires Sinking(Permuted(keys, ind[..]), i, j)
    requires Less(keys[ind[j]], keys[ind[j - 1]])
    modifies ind
    ensures IndexPermutation(keys, ind)
    ensures Sinking(Permuted(keys, ind[..]), i, j - 1)
    ensures forall m :: i < m < ind.Length ==> ind[m] == old(ind[m])
  {
    SinkingStep(Permuted(keys, ind[..]), i, j);
    SwapIndices(keys, ind, j - 1, j);
  }

  /**
   * One pass of the insertion sort: move the index at position `i` down past
   * every index whose key is greater, extending the sorted prefix by one.
   * Only the first `i + 1` indices are rearranged.
   */
  method SinkIndex(keys: seq<Key>, ind: array<nat>, i: nat)
    requires i < ind.Length
    requires IndexPermutation(keys, ind)
    requires SortedPrefix(Permuted(keys, ind[..]), i)
    modifies ind
    ensures IndexPermutation(keys, ind)
    ensures SortedPrefix(Permuted(keys, ind[..]), i + 1)
    ensures RearrangedPrefix(ind[..], old(ind[..]), i + 1)
  {
    ghost var start := ind[..];
    var j := i;
    while j > 0 && Less(keys[ind[j]], keys[ind[j - 1]])
      invariant 0 <= j <= i
      invariant IndexPermutation(keys, ind)
      invariant Sinking(Permuted(keys, ind[..]), i, j)
      invariant forall m :: i < m < ind.Length ==> ind[m] == start[m]
    {
      SinkStep(keys, ind, i, j);
      j := j - 1;
    }
    SinkingDone(Permuted(keys, ind[..]), i, j);
    SameTailSamePrefix(ind[..], start, i + 1);
  }

  /**
   * `CppAD::index_sort(keys, ind)`: `ind` becomes a permutation of
   * `0, ..., keys.Length - 1` under which the keys are non-decreasing; the
   * keys themselves are not moved. Written here as an insertion sort on the
   * index array.
   */
  method IndexSort(keys: array<Key>) returns (ind: array<nat>)
    ensures ind.Length == keys.Length
    ensures forall i :: 0 <= i < ind.Length ==> ind[i] < keys.Length
    ensures multiset(ind[..]) == multiset(Iota(keys.Length))
    ensures Sorted(Permuted(keys[..], ind[..]))
    ensures Permuted(keys[..], ind[..]) == SortKeys(keys[..])
  {
    var n := keys.Length;
    var k := keys[..];
    ind := new nat[n](i => i);
    assert ind[..] == Iota(n);
    assert Permuted(k, ind[..]) == k;
    var i := 0;
    while i < n
      invariant 0 <= i <= n
      invariant IndexPermutation(k, ind)
      invariant SortedPrefix(Permuted(k, ind[..]), i)
    {
      SinkIndex(k, ind, i);
      i := i + 1;
    }
    ghost var visited := Permuted(keys[..], ind[..]);
    assert Sorted(visited);
    SortKeysSorted(keys[..]);
    SortedUnique(visited, SortKeys(keys[..]));
  }
}
