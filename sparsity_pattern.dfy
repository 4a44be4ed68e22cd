/**
 * `choose_row_col`: the generator of the sparsity pattern used by the
 * sparse Hessian speed and correctness tests, modelled as the code is
 * written.
 *
 * The random source is an input: `draws[k]` stands for the already
 * truncated value `size_t(n * random[k])`, for `k < 2 K` with `K = 5 n`.
 * The generator
 *   1. makes `K` random candidate keys, clamping each index to `n - 1` and
 *      swapping each pair into the lower triangle;
 *   2. appends `n` forced keys `(n / 2, k)`;
 *   3. index-sorts the `K + n` keys;
 *   4. walks the first `K` sorted keys and pushes a pair whenever it differs
 *      from the previous one. The walk reads the column from the row field,
 *      so every pair after the first is a diagonal pair `(r, r)`.
 */
module SparsityPattern {
  import opened KeyOrder
  import opened Sorting

  /** The number of random candidate keys for dimension `n`. */
  function K(n: nat): (r: nat) {
    5 * n
  }

  /** `std::min(n - 1, v)`: the truncated draw, clamped into `[0, n)`. */
  function Clamp(n: nat, v: nat): (r: nat)
    requires n >= 1
    ensures r < n && r <= v
    ensures r == v || r == n - 1
  {
    if n - 1 < v then n - 1 else v
  }

  /**
   * The `k`-th random candidate: the row draw `draws[k]` and the column draw
   * `draws[k + K]`, both clamped, then swapped into the lower triangle.
   */
  function RandomKey(n: nat, draws: seq<nat>, k: nat): (key: Key)
    requires n >= 1 && |draws| == 2 * K(n) && k < K(n)
    ensures key.col <= key.row < n
    ensures || (key.row == Clamp(n, draws[k]) && key.col == Clamp(n, draws[k + K(n)]))
            || (key.row == Clamp(n, draws[k + K(n)]) && key.col == Clamp(n, draws[k]))
  {
    var r := Clamp(n, draws[k]);
    var c := Clamp(n, draws[k + K(n)]);
    if c > r then Key(c, r) else Key(r, c)
  }

  /** The `K + n` keys before sorting: the random candidates, then the forced block. */
  function Candidates(n: nat, draws: seq<nat>): (keys: seq<Key>)
    requires n >= 1 && |draws| == 2 * K(n)
    ensures |keys| == K(n) + n
  {
    seq(K(n) + n, i requires 0 <= i < K(n) + n =>
      if i < K(n) then RandomKey(n, draws, i) else Key(n / 2, i - K(n)))
  }

  /**
   * The candidate keys: the random ones lie in the lower triangle with both
   * indices at most `n - 1`; the forced block at `K + k` is `(n / 2, k)`.
   */
  lemma CandidatesShape(n: nat, draws: seq<nat>)
    requires n >= 1 && |draws| == 2 * K(n)
    ensures forall k :: 0 <= k < K(n) ==>
      Candidates(n, draws)[k].col <= Candidates(n, draws)[k].row <= n - 1
    ensures forall k :: K(n) <= k < K(n) + n ==> Candidates(n, draws)[k] == Key(n / 2, k - K(n))
  {
  }

  /** Every candidate key has both indices in `[0, n)`. */
  lemma CandidatesInRange(n: nat, draws: seq<nat>, x: Key)
    requires n >= 1 && |draws| == 2 * K(n)
    requires x in multiset(Candidates(n, draws))
    ensures x.row < n && x.col < n
  {
    var k := MemberAt(Candidates(n, draws), x);
  }

  /** The first loop of `choose_row_col`: the random candidates go to `keys[0..K)`. */
  method FillRandomKeys(keys: array<Key>, n: nat, draws: seq<nat>)
    requires n >= 1 && |draws| == 2 * K(n) && keys.Length == K(n) + n
    modifies keys
    ensures forall i :: 0 <= i < K(n) ==> keys[i] == RandomKey(n, draws, i)
    ensures forall i :: K(n) <= i < keys.Length ==> keys[i] == old(keys[i])
  {
    var bigK := K(n);
    var k := 0;
    while k < bigK
      invariant 0 <= k <= bigK
      invariant forall i :: 0 <= i < k ==> keys[i] == RandomKey(n, draws, i)
      invariant forall i :: bigK <= i < keys.Length ==> keys[i] == old(keys[i])
    {
      var r := Clamp(n, draws[k]);
      var c := Clamp(n, draws[k + bigK]);
      // keep the larger index as the row
      if c > r {
        r, c := c, r;
      }
      assert Key(r, c) == RandomKey(n, draws, k);
      keys[k] := Key(r, c);
      k := k + 1;
    }
  }

  /** The second loop: the block the source calls "the diagonal", row `n / 2` with every column. */
  method FillForcedKeys(keys: array<Key>, n: nat)
    requires keys.Length == K(n) + n
    modifies keys
    ensures forall i :: K(n) <= i < keys.Length ==> keys[i] == Key(n / 2, i - K(n))
    ensures forall i :: 0 <= i < K(n) ==> keys[i] == old(keys[i])
  {
    var bigK := 5 * n;
    var k := 0;
    while k < n
      invariant 0 <= k <= n
      invariant forall i :: bigK <= i < bigK + k ==> keys[i] == Key(n / 2, i - bigK)
      invariant forall i :: 0 <= i < bigK ==> keys[i] == old(keys[i])
    {
      keys[k + bigK] := Key(n / 2, k);
      k := k + 1;
    }
  }

  /** The key vector of `choose_row_col`, filled by its two loops. */
  method FillKeys(n: nat, draws: seq<nat>) returns (keys: array<Key>)
    requires n >= 1 && |draws| == 2 * K(n)
    ensures keys[..] == Candidates(n, draws)
  {
    keys := new Key[K(n) + n](_ => Key(0, 0));
    FillRandomKeys(keys, n, draws);
    FillForcedKeys(keys, n);
    assert keys[..] == Candidates(n, draws);
  }

  /** The row indices of a list of pairs. */
  function Rows(p: seq<Key>): (r: seq<nat>)
    ensures |r| == |p|
  {
    seq(|p|, i requires 0 <= i < |p| => p[i].row)
  }

  /** The column indices of a list of pairs. */
  function Cols(p: seq<Key>): (r: seq<nat>)
    ensures |r| == |p|
  {
    seq(|p|, i requires 0 <= i < |p| => p[i].col)
  }

  /**
   * What the test harness promises of a pattern for dimension `n`: `row`
   * and `col` have the same length, every index is in `[0, n)`, only the
   * lower triangle appears, and no (row, col) pair appears twice.
   */
  ghost predicate IsPattern(n: nat, row: seq<nat>, col: seq<nat>) {
    && |row| == |col|
    && (forall k :: 0 <= k < |row| ==> row[k] < n && col[k] < n)
    && (forall k :: 0 <= k < |row| ==> col[k] <= row[k])
    && (forall j, k :: 0 <= j < |row| && 0 <= k < |row| && j != k ==>
          row[j] != row[k] || col[j] != col[k])
  }

  /**
   * `(r_previous, c_previous)` once the walk has looked at the first `m`
   * sorted keys: the first key itself, and after that the row of the last
   * key looked at, twice (the column is read from the row field).
   */
  function Previous(sorted: seq<Key>, m: nat): (r: Key)
    requires 1 <= m <= |sorted|
  {
    if m == 1 then sorted[0] else Key(sorted[m - 1].row, sorted[m - 1].row)
  }

  /**
   * The pairs the de-duplicating walk has pushed once it has looked at the
   * first `m` sorted keys.
   */
  function Walk(sorted: seq<Key>, m: nat): (r: seq<Key>)
    requires 1 <= m <= |sorted|
  {
    if m == 1 then [sorted[0]]
    else
      var current := Key(sorted[m - 1].row, sorted[m - 1].row);
      Walk(sorted, m - 1) + if current != Previous(sorted, m - 1) then [current] else []
  }

  /** The pattern `choose_row_col(n, row, col)` produces from the given draws, as pairs. */
  function Generate(n: nat, draws: seq<nat>): (r: seq<Key>)
    requires n >= 1 && |draws| == 2 * K(n)
  {
    Walk(SortKeys(Candidates(n, draws)), K(n))
  }

  /**
   * The walk over sorted keys: it pushes at least one and at most one pair
   * per key looked at, starts with the smallest key, its last pair is the
   * walk's "previous" pair, every later pair is diagonal, the rows are
   * non-decreasing and no pair is pushed twice.
   */
  lemma {:induction false} WalkShape(sorted: seq<Key>, m: nat)
    requires Sorted(sorted) && 1 <= m <= |sorted|
    ensures 1 <= |Walk(sorted, m)| <= m
    ensures Walk(sorted, m)[0] == sorted[0]
    ensures Walk(sorted, m)[|Walk(sorted, m)| - 1] == Previous(sorted, m)
    ensures forall i :: 1 <= i < |Walk(sorted, m)| ==> Walk(sorted, m)[i].row == Walk(sorted, m)[i].col
    ensures forall i, j :: 0 <= i < j < |Walk(sorted, m)| ==> Walk(sorted, m)[i].row <= Walk(sorted, m)[j].row
    ensures forall i, j :: 0 <= i < j < |Walk(sorted, m)| ==> Walk(sorted, m)[i] != Walk(sorted, m)[j]
  {
    if m > 1 {
      WalkShape(sorted, m - 1);
      var before := Walk(sorted, m - 1);
      var last := before[|before| - 1];
      var current := Key(sorted[m - 1].row, sorted[m - 1].row);
      assert NoLater(sorted[m - 2], sorted[m - 1]);
      assert last.row <= current.row;
      if current != Previous(sorted, m - 1) {
        var w := before + [current];
        assert Walk(sorted, m) == w;
        forall i | 0 <= i < |before| ensures before[i] != current {
        }
      }
    }
  }

  /** The walk takes its indices from the sorted keys, so it stays within their bounds. */
  lemma {:induction false} WalkWithin(sorted: seq<Key>, m: nat, n: nat)
    requires 1 <= m <= |sorted|
    requires forall j :: 0 <= j < |sorted| ==> sorted[j].row < n && sorted[j].col < n
    ensures forall i :: 0 <= i < |Walk(sorted, m)| ==> Walk(sorted, m)[i].row < n && Walk(sorted, m)[i].col < n
  {
    if m > 1 {
      WalkWithin(sorted, m - 1, n);
    }
  }

  /**
   * The smallest of a set of keys that holds `(h, 0)` and whose keys are in
   * the lower triangle unless their row is `h` is in the lower triangle.
   */
  lemma SmallestIsLower(c: seq<Key>, sorted: seq<Key>, h: nat)
    requires Sorted(sorted) && multiset(sorted) == multiset(c)
    requires Key(h, 0) in multiset(c)
    requires forall x :: x in multiset(c) ==> x.col <= x.row || x.row == h
    ensures sorted != [] && sorted[0].col <= sorted[0].row
  {
    var j := MemberAt(sorted, Key(h, 0));
    assert NoLater(sorted[0], sorted[j]);
    assert sorted[0] in multiset(c);
  }

  /** Every candidate key lies in the lower triangle or in row `n / 2`, and `(n / 2, 0)` is one of them. */
  lemma CandidatesLowerOrForced(n: nat, draws: seq<nat>)
    requires n >= 1 && |draws| == 2 * K(n)
    ensures Key(n / 2, 0) in multiset(Candidates(n, draws))
    ensures forall x :: x in multiset(Candidates(n, draws)) ==> x.col <= x.row || x.row == n / 2
  {
    var c := Candidates(n, draws);
    assert c[K(n)] == Key(n / 2, 0);
    forall x | x in multiset(c) ensures x.col <= x.row || x.row == n / 2 {
      var k := MemberAt(c, x);
    }
  }

  /**
   * A walk over sorted keys within `[0, n)` whose first key is in the lower
   * triangle yields a pattern for dimension `n` of at least one and at most
   * `m` pairs, with non-decreasing rows.
   */
  lemma WalkIsPattern(sorted: seq<Key>, m: nat, n: nat)
    requires Sorted(sorted) && 1 <= m <= |sorted|
    requires forall j :: 0 <= j < |sorted| ==> sorted[j].row < n && sorted[j].col < n
    requires sorted[0].col <= sorted[0].row
    ensures IsPattern(n, Rows(Walk(sorted, m)), Cols(Walk(sorted, m)))
    ensures 1 <= |Walk(sorted, m)| <= m
    ensures forall j, k :: 0 <= j < k < |Walk(sorted, m)| ==>
      Rows(Walk(sorted, m))[j] <= Rows(Walk(sorted, m))[k]
  {
    var w := Walk(sorted, m);
    WalkShape(sorted, m);
    WalkWithin(sorted, m, n);
    var row, col := Rows(w), Cols(w);
    forall j, k | 0 <= j < |row| && 0 <= k < |row| && j != k
      ensures row[j] != row[k] || col[j] != col[k]
    {
      if j < k {
        assert w[j] != w[k];
      } else {
        assert w[k] != w[j];
      }
    }
  }

  /**
   * The generated pattern meets the harness's contract for dimension `n`:
   * indices in `[0, n)`, lower triangle only, no duplicate pair; it holds
   * between 1 and `K = 5 n` pairs and its rows are non-decreasing.
   */
  lemma GenerateIsPattern(n: nat, draws: seq<nat>)
    requires n >= 1 && |draws| == 2 * K(n)
    ensures IsPattern(n, Rows(Generate(n, draws)), Cols(Generate(n, draws)))
    ensures 1 <= |Generate(n, draws)| <= K(n)
    ensures forall j, k :: 0 <= j < k < |Generate(n, draws)| ==>
      Rows(Generate(n, draws))[j] <= Rows(Generate(n, draws))[k]
  {
    var c := Candidates(n, draws);
    var s := SortKeys(c);
    SortKeysSorted(c);
    forall j | 0 <= j < |s| ensures s[j].row < n && s[j].col < n {
      assert s[j] in multiset(c);
      CandidatesInRange(n, draws, s[j]);
    }
    CandidatesLowerOrForced(n, draws);
    SmallestIsLower(c, s, n / 2);
    WalkIsPattern(s, K(n), n);
  }

  /**
   * The shape the walk's reading of the column from the row field gives:
   * the first pair is the smallest candidate key, and every later pair is a
   * diagonal pair `(r, r)` with `r` strictly increasing.
   */
  lemma GenerateShape(n: nat, draws: seq<nat>)
    requires n >= 1 && |draws| == 2 * K(n)
    ensures |Generate(n, draws)| >= 1
    ensures Generate(n, draws)[0] in multiset(Candidates(n, draws))
    ensures forall x :: x in multiset(Candidates(n, draws)) ==> NoLater(Generate(n, draws)[0], x)
    ensures forall i :: 1 <= i < |Generate(n, draws)| ==> Generate(n, draws)[i].row == Generate(n, draws)[i].col
    ensures forall i, j :: 1 <= i < j < |Generate(n, draws)| ==> Generate(n, draws)[i].row < Generate(n, draws)[j].row
  {
    var c := Candidates(n, draws);
    var s := SortKeys(c);
    SortKeysSorted(c);
    WalkShape(s, K(n));
    assert s[0] in multiset(s);
    forall x | x in multiset(c) ensures NoLater(s[0], x) {
      var j := MemberAt(s, x);
    }
  }

  /**
   * Because the walk stops after `K` of the `K + n` sorted keys: when every
   * draw is 0 and `n >= 2`, the pattern is the single pair `(0, 0)`. No key
   * of the forced block is ever looked at, and the pattern has fewer than
   * `n` pairs.
   */
  lemma ZeroDrawsGiveOnePair(n: nat)
    requires n >= 2
    ensures Generate(n, seq(2 * K(n), _ => 0)) == [Key(0, 0)]
  {
    var draws: seq<nat> := seq(2 * K(n), _ => 0);
    var c := Candidates(n, draws);
    forall i | 0 <= i < K(n) ensures c[i] == Key(0, 0) {
      assert Clamp(n, draws[i]) == 0 && Clamp(n, draws[i + K(n)]) == 0;
    }
    assert Sorted(c);
    SortKeysSorted(c);
    SortedUnique(c, SortKeys(c));
    WalkOfZeros(c, K(n));
  }

  /** A walk over keys that all equal `(0, 0)` pushes `(0, 0)` once. */
  lemma {:induction false} WalkOfZeros(sorted: seq<Key>, m: nat)
    requires 1 <= m <= |sorted|
    requires forall j :: 0 <= j < m ==> sorted[j] == Key(0, 0)
    ensures Walk(sorted, m) == [Key(0, 0)]
  {
    if m > 1 {
      WalkOfZeros(sorted, m - 1);
    }
  }

  /**
   * The block the source labels "include the diagonal" is row `n / 2`: for
   * `n >= 3` it holds the upper-triangle key `(n / 2, n - 1)` and never the
   * diagonal key `(n - 1, n - 1)`.
   */
  lemma ForcedBlockIsARow(n: nat, draws: seq<nat>)
    requires n >= 3 && |draws| == 2 * K(n)
    ensures Candidates(n, draws)[K(n) + n - 1] == Key(n / 2, n - 1)
    ensures Candidates(n, draws)[K(n) + n - 1].col > Candidates(n, draws)[K(n) + n - 1].row
    ensures forall k :: K(n) <= k < K(n) + n ==> Candidates(n, draws)[k] != Key(n - 1, n - 1)
  {
  }

  /**
   * The de-duplicating walk of `choose_row_col` over the first `bigK`
   * indices of the sorted permutation `ind`, pushing onto `row` and `col`.
   */
  method PushPairs(keys: array<Key>, ind: array<nat>, bigK: nat) returns (row: seq<nat>, col: seq<nat>)
    requires 1 <= bigK <= ind.Length
    requires forall i :: 0 <= i < ind.Length ==> ind[i] < keys.Length
    ensures |row| == |col| == |Walk(Permuted(keys[..], ind[..]), bigK)|
    ensures forall i :: 0 <= i < |row| ==> Walk(Permuted(keys[..], ind[..]), bigK)[i] == Key(row[i], col[i])
  {
    ghost var sorted := Permuted(keys[..], ind[..]);
    row := [];
    col := [];
    var rPrevious := keys[ind[0]].row;
    var cPrevious := keys[ind[0]].col;
    row := row + [rPrevious];
    col := col + [cPrevious];
    var k := 1;
    while k < bigK
      invariant 1 <= k <= bigK
      invariant |row| == |col| == |Walk(sorted, k)|
      invariant forall i :: 0 <= i < |row| ==> Walk(sorted, k)[i] == Key(row[i], col[i])
      invariant Key(rPrevious, cPrevious) == Previous(sorted, k)
    {
      var r := keys[ind[k]].row;
      var c := keys[ind[k]].row;  // as written: the column is read from the row field
      if r != rPrevious || c != cPrevious {
        row := row + [r];
        col := col + [c];
      }
      rPrevious := r;
      cPrevious := c;
      k := k + 1;
    }
  }

  /**
   * `choose_row_col(n, row, col)`: fills and index-sorts the candidate keys,
   * then walks the first `K` sorted keys, pushing de-duplicated pairs onto
   * `row` and `col`.
   */
  method ChooseRowCol(n: nat, draws: seq<nat>) returns (row: seq<nat>, col: seq<nat>)
    requires n >= 1 && |draws| == 2 * K(n)
    ensures row == Rows(Generate(n, draws)) && col == Cols(Generate(n, draws))
    ensures IsPattern(n, row, col)
    ensures 1 <= |row| <= K(n)
    ensures forall j, k :: 0 <= j < k < |row| ==> row[j] <= row[k]
  {
    var bigK := 5 * n;
    var keys := FillKeys(n, draws);
    var ind := IndexSort(keys);
    // walk the sorted order, pushing a pair whenever it differs from the last key seen
    row, col := PushPairs(keys, ind, bigK);
    ghost var g := Generate(n, draws);
    assert Permuted(keys[..], ind[..]) == SortKeys(Candidates(n, draws));
    assert row == Rows(g) && col == Cols(g);
    GenerateIsPattern(n, draws);
  }
}
