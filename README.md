# Sparse Hessian test pattern: a verified model

This project models the core of CppAD's sparse Hessian speed test
(`speed/src/link_sparse_hessian.cpp`) and proves properties of that model.
There are three parts:

- `choose_row_col(n, row, col)`. It generates the sparsity pattern that
  every package under test must evaluate. It makes `K = 5 n` random
  (row, col) candidates and clamps each index to `n - 1`. It swaps each pair
  into the lower triangle and appends `n` forced keys `(n / 2, k)`. It then
  index-sorts the `K + n` keys under `Key::operator<` and walks the sorted
  order, pushing de-duplicated pairs onto `row` and `col`.
- `CppAD::index_sort`, which the generator relies on. Its source is not part
  of this model. Here it is written as an insertion sort on an index array,
  proved against its contract: the result is a permutation of `0 .. K+n-1`,
  and the keys come out non-decreasing under it.
- `correct_sparse_hessian(is_package_double)`. It picks the order and the
  number of compared entries, then ANDs the near-equality test over them.

Files and modules:

- `key_order.dfy` (`KeyOrder`): the `Key` value, `operator<`, and the
  non-decreasing order.
- `sorting.dfy` (`Sorting`): a reference insertion sort on values
  (`SortKeys`). It also proves that a sorted arrangement of a sequence of
  keys is unique, and it holds the `IndexSort` method.
- `sparsity_pattern.dfy` (`SparsityPattern`): `choose_row_col` as
  imperative code (the `FillKeys` loops, `IndexSort`, the `PushPairs` walk),
  and the function `Generate` that specifies it.
- `verifier.dfy` (`Verifier`): `correct_sparse_hessian`.

The random source is an input. `draws[k]` is the already truncated value
`size_t(n * random[k])`, for `k < 2 K`. Any natural number is allowed, and
the clamp `min(n - 1, ·)` is modelled exactly. The requirement `n >= 1` is
the source's own: for `n == 0` the code reads `keys[ind[0]]` from an empty
vector.

### The generator as written

The model follows the code, including three quirks:

- The walk reads the column from the row field
  (`c = keys[ind[k]].row_`, line 255). So every pair pushed after the first
  is a diagonal pair `(r, r)` (`GenerateShape`).
- The walk stops at `k < K` (line 253), not at `K + n`. The largest `n`
  sorted keys are never looked at.
- The block commented "include the diagonal" (lines 241-243) is row `n / 2`
  with every column. For `n >= 3` it puts upper-triangle keys such as
  `(n / 2, n - 1)` among the candidates (`ForcedBlockIsARow`).

The documented contract of the pattern (lines 84-110) still holds for the
output: equal lengths, indices in `[0, n)`, lower triangle only, and no
duplicate pair (`GenerateIsPattern`). The first pair is the smallest
candidate. It is in the lower triangle because the forced `(n / 2, 0)` sorts
before every `(n / 2, j)` with `j > 0` (`SmallestIsLower`).

The comment "include the diagonal" (line 241) suggests that the forced block
puts the `n` diagonal pairs into every pattern. The code does not deliver
that. The pattern holds between 1 and `5 n` pairs,
not up to `6 n`. With every draw 0 and `n >= 2`, it is the single pair
`(0, 0)` (`ZeroDrawsGiveOnePair`). The model follows the code.

The walk compares each key with the previous key it LOOKED AT
(`r_previous` and `c_previous` are updated on every step), not with the last
pair it pushed. `WalkShape` proves that the two are always the same.

`index_sort` need not be stable: `SortedUnique` shows that the sorted
sequence of keys, and so the whole pattern, does not depend on how ties are
broken.

## Model

| member | source | states |
|---|---|---|
| KeyOrder.Less | speed/src/link_sparse_hessian.cpp:194-198 | `Key::operator<` as a definition; its properties are in `LessIsLexicographic`, `LessIsStrictTotalOrder` and `NoLaterIsTotalOrder` |
| KeyOrder.LessIsLexicographic | speed/src/link_sparse_hessian.cpp:194-198 | `Key::operator<` holds exactly when the row is smaller, or the rows are equal and the column is smaller |
| KeyOrder.LessIsStrictTotalOrder | speed/src/link_sparse_hessian.cpp:194-198 | `operator<` is irreflexive and transitive; for distinct keys exactly one of `a < b`, `b < a` holds |
| KeyOrder.NoLaterIsTotalOrder | speed/src/link_sparse_hessian.cpp:194-198 | `!(b < a)` is reflexive, transitive and total, and antisymmetric on keys: the order an index sort leaves behind |
| Sorting.SortKeys | speed/src/link_sparse_hessian.cpp:244 | the reference sort returns a rearrangement (same multiset, same length) of its keys |
| Sorting.SortKeysSorted | speed/src/link_sparse_hessian.cpp:244 | the reference sort's result is non-decreasing under `operator<` |
| Sorting.SortedUnique | speed/src/link_sparse_hessian.cpp:244 | two non-decreasing sequences with the same keys are equal, so the sorted order does not depend on the sort's tie-breaking |
| Sorting.SinkIndex | speed/src/link_sparse_hessian.cpp:244 | one insertion pass of the index sort keeps `ind` a permutation visiting the same keys, extends the sorted prefix by one, only rearranges `ind[0..i]` and leaves `ind[i+1..]` unchanged |
| Sorting.IndexSort | speed/src/link_sparse_hessian.cpp:226-244 | `ind` has the keys' length, is a permutation of `0 .. K+n-1`, `keys[ind[·]]` is non-decreasing, and equals the reference sort of the keys |
| SparsityPattern.K | speed/src/link_sparse_hessian.cpp:219 | `K = 5 n` as a definition: the number of random candidates and of sorted keys the walk looks at |
| SparsityPattern.Clamp | speed/src/link_sparse_hessian.cpp:229-233 | `min(n - 1, v)`: the result is below `n`, at most `v`, and is `v` or `n - 1` |
| SparsityPattern.RandomKey | speed/src/link_sparse_hessian.cpp:228-240 | the k-th random key has `col <= row < n` and is the two clamped draws, swapped when the column draw is larger |
| SparsityPattern.Candidates | speed/src/link_sparse_hessian.cpp:228-243 | the `K + n` keys before sorting, random ones first and the forced block after; its shape is in `CandidatesShape`, `CandidatesInRange` and `CandidatesLowerOrForced` |
| SparsityPattern.CandidatesShape | speed/src/link_sparse_hessian.cpp:228-243 | random candidates `k < K` satisfy `col <= row <= n - 1`; forced candidates `K + k` equal `(n / 2, k)` |
| SparsityPattern.CandidatesInRange | speed/src/link_sparse_hessian.cpp:229-243 | every candidate key has both indices in `[0, n)` |
| SparsityPattern.CandidatesLowerOrForced | speed/src/link_sparse_hessian.cpp:235-243 | `(n / 2, 0)` is a candidate, and every candidate is in the lower triangle or in row `n / 2` |
| SparsityPattern.FillRandomKeys | speed/src/link_sparse_hessian.cpp:228-240 | the first loop sets `keys[k]` to the k-th random key for `k < K` and leaves the rest unchanged |
| SparsityPattern.FillForcedKeys | speed/src/link_sparse_hessian.cpp:241-243 | the second loop sets `keys[K + k]` to `(n / 2, k)` and leaves `keys[0..K)` unchanged |
| SparsityPattern.FillKeys | speed/src/link_sparse_hessian.cpp:226-243 | the key vector after both loops is exactly the candidate sequence |
| SparsityPattern.Previous | speed/src/link_sparse_hessian.cpp:249-261 | `(r_previous, c_previous)` as a definition: the first sorted key, and afterwards the row of the last key looked at, twice; `WalkShape` proves it is always the last pair pushed |
| SparsityPattern.Walk | speed/src/link_sparse_hessian.cpp:249-262 | the de-duplicating walk as a definition; its properties are in `WalkShape`, `WalkWithin` and `WalkIsPattern`, and `PushPairs` is proved equal to it |
| SparsityPattern.Generate | speed/src/link_sparse_hessian.cpp:215-263 | `choose_row_col` as a function (sort the candidates, walk the first `K`); its properties are in `GenerateIsPattern` and `GenerateShape`, and `ChooseRowCol` is proved equal to it |
| SparsityPattern.WalkShape | speed/src/link_sparse_hessian.cpp:246-262 | over sorted keys the walk pushes 1 to m pairs: the smallest key first, then diagonal pairs; rows non-decreasing; no pair twice; its last pair is always `(r_previous, c_previous)` |
| SparsityPattern.WalkWithin | speed/src/link_sparse_hessian.cpp:249-258 | the walk only pushes indices taken from the sorted keys, so it keeps their bounds |
| SparsityPattern.SmallestIsLower | speed/src/link_sparse_hessian.cpp:249-252 | the first sorted key is in the lower triangle when `(h, 0)` is present and only row-`h` keys may be upper-triangle |
| SparsityPattern.WalkIsPattern | speed/src/link_sparse_hessian.cpp:246-262 | a walk over sorted in-range keys starting in the lower triangle yields a valid pattern of 1 to m pairs with non-decreasing rows |
| SparsityPattern.GenerateIsPattern | speed/src/link_sparse_hessian.cpp:84-110 | the generated row/col meet the documented contract (equal length, indices in `[0, n)`, `row[k] >= col[k]`, no duplicate pair), with 1 to `5 n` pairs and non-decreasing rows |
| SparsityPattern.GenerateShape | speed/src/link_sparse_hessian.cpp:253-262 | the first pair is the smallest candidate key; every later pair is diagonal `(r, r)` with strictly increasing `r` |
| SparsityPattern.ZeroDrawsGiveOnePair | speed/src/link_sparse_hessian.cpp:241-253 | for all-zero draws and `n >= 2` the pattern is exactly `[(0, 0)]`: the forced block is never reached and there are fewer than `n` pairs |
| SparsityPattern.WalkOfZeros | speed/src/link_sparse_hessian.cpp:253-262 | a walk over keys that are all `(0, 0)` pushes `(0, 0)` once |
| SparsityPattern.ForcedBlockIsARow | speed/src/link_sparse_hessian.cpp:241-243 | for `n >= 3` the "diagonal" block holds the upper-triangle key `(n / 2, n - 1)` and never `(n - 1, n - 1)` |
| SparsityPattern.PushPairs | speed/src/link_sparse_hessian.cpp:246-262 | the de-duplicating loop pushes exactly the pairs `Walk` specifies for the first `K` sorted indices |
| SparsityPattern.ChooseRowCol | speed/src/link_sparse_hessian.cpp:215-263 | the output equals `Generate(n, draws)`, is a valid pattern for `n`, has 1 to `5 n` entries, and its rows are non-decreasing |
| Verifier.SelectComparison | speed/src/link_sparse_hessian.cpp:351-359 | order 0 with size 1 for the `double` package, else order 2 with size K; never more entries than the pattern has |
| Verifier.AllNearEqual | speed/src/link_sparse_hessian.cpp:362-365 | `ok` is true exactly when the near-equality test holds for every `k < size` |
| Verifier.CorrectSparseHessian | speed/src/link_sparse_hessian.cpp:338-368 | for `double` the result is whether `hessian[0]` is near `f(x)`; otherwise whether every entry of the generated pattern is near its reference second derivative |

## Left out

- `CppAD::uniform_01` and the floating-point draws `random[k]` and `n * random[k]`. These are floating point, so the truncated values are an input sequence of naturals.
- `CppAD::NearEqual` and its `1e-10` tolerances. Floating-point comparison is a parameter `near` over an opaque value type.
- `link_sparse_hessian`, the package-specific backend (taping, sweeps, coloring). Its source is not part of this model. It is a parameter `hessianAt` that gives `hessian[k]` for a pattern. The argument `x` it chooses and the sweep count `n_sweep` are not modelled.
- `CppAD::sparse_hes_fun`, the closed-form reference. Its source is not part of this model. It is a parameter `reference`, evaluated at the backend's `x`.
- `CppAD::index_sort`'s own algorithm. Its source is not part of this model. `IndexSort` is an insertion sort with the same contract.
- `available_sparse_hessian`, `speed_sparse_hessian` and `info_sparse_hessian`. Beyond `choose_row_col`, which is modelled, they only hand buffers to the backend.
- The documented promise that every nonzero Hessian entry appears in the pattern (lines 111-116). It concerns `f`, which `sparse_hes_fun` defines from the pattern itself.
- `size_t` wrap-around of `5 * n`, `2 * K` and `K + n`. The model uses unbounded naturals, so huge `n` that would overflow is not modelled.
- Filling `row` and `col` in place. The method returns them as new sequences; the source's `resize(0)` discards the old contents either way.
- `bin/push_git2svn.py` and `example/sparse/sparse.cpp`. They are repository-sync scripting and a test-runner `main` with no logic of the core.
