/**
 * `correct_sparse_hessian`: generate the pattern for `n = 10`, let the
 * package fill the compressed Hessian, and compare it entry by entry with
 * the closed-form reference.
 *
 * The package routine (`link_sparse_hessian`), the reference
 * (`sparse_hes_fun`) and the tolerance test (`NearEqual`) are collaborators
 * whose internals are not modelled; they are parameters. `hessianAt(row,
 * col, k)` is the value the package leaves in `hessian[k]` for the pattern,
 * and `reference(row, col, order, k)` is `check[k]` for that pattern and
 * order, both at the argument `x` the package chose.
 */
module Verifier {
  import opened SparsityPattern

  /** The dimension `n` the correctness test uses. */
  const Dimension: nat := 10

  /** The derivative order asked of the reference and the number of entries compared. */
  datatype Comparison = Comparison(order: nat, size: nat)

  /**
   * For the `double` package only the function value is checked (order 0,
   * one entry); otherwise all `bigK` Hessian entries are (order 2). Either
   * way no more entries are compared than the pattern has, once it has one.
   */
  function SelectComparison(isPackageDouble: bool, bigK: nat): (c: Comparison)
    ensures isPackageDouble ==> c.order == 0 && c.size == 1
    ensures !isPackageDouble ==> c.order == 2 && c.size == bigK
    ensures bigK >= 1 ==> 1 <= c.size <= bigK
  {
    if isPackageDouble then Comparison(0, 1) else Comparison(2, bigK)
  }

  /** The loop `ok &= NearEqual(check[k], hessian[k], ...)` over the first `size` entries. */
  method AllNearEqual<T>(check: seq<T>, hessian: seq<T>, size: nat, near: (T, T) -> bool) returns (ok: bool)
    requires size <= |check| && size <= |hessian|
    ensures ok <==> forall k :: 0 <= k < size ==> near(check[k], hessian[k])
  {
    ok := true;
    for k := 0 to size
      invariant ok <==> forall j :: 0 <= j < k ==> near(check[j], hessian[j])
    {
      ok := ok && near(check[k], hessian[k]);
    }
  }

  /**
   * `correct_sparse_hessian(is_package_double)`. For the `double` package
   * the result says whether the single function value is near the
   * reference value; otherwise whether every Hessian entry of the generated
   * pattern is near its reference second derivative.
   */
  method CorrectSparseHessian<T>(
    isPackageDouble: bool,
    draws: seq<nat>,
    hessianAt: (seq<nat>, seq<nat>, nat) -> T,
    reference: (seq<nat>, seq<nat>, nat, nat) -> T,
    near: (T, T) -> bool)
    returns (ok: bool)
    requires |draws| == 2 * K(Dimension)
    ensures var g := Generate(Dimension, draws);
      isPackageDouble ==>
        (ok <==> near(reference(Rows(g), Cols(g), 0, 0), hessianAt(Rows(g), Cols(g), 0)))
    ensures var g := Generate(Dimension, draws);
      !isPackageDouble ==>
        (ok <==> forall k :: 0 <= k < |g| ==>
          near(reference(Rows(g), Cols(g), 2, k), hessianAt(Rows(g), Cols(g), k)))
  {
    var n := Dimension;
    var row, col := ChooseRowCol(n, draws);
    var bigK := |row|;
    var hessian := seq(bigK, k requires 0 <= k < bigK => hessianAt(row, col, k));
    var c := SelectComparison(isPackageDouble, bigK);
    var check := seq(c.size, k requires 0 <= k < c.size => reference(row, col, c.order, k));
    ok := AllNearEqual(check, hessian, c.size, near);
    ghost var g := Generate(n, draws);
    assert row == Rows(g) && col == Cols(g) && bigK == |g|;
    assert forall k :: 0 <= k < c.size ==>
      check[k] == reference(Rows(g), Cols(g), c.order, k) && hessian[k] == hessianAt(Rows(g), Cols(g), k);
  }
}
