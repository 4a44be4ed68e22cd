/**
 * The (row, column) keys that the sparsity-pattern generator sorts, and the
 * order `Key::operator<` puts on them.
 */
module KeyOrder {

  /** One candidate entry of the pattern: the Key class, a plain value. */
  datatype Key = Key(row: nat, col: nat)

  /** `Key::operator<`: when the rows agree compare columns, otherwise rows. */
  predicate Less(a: Key, b: Key) {
    if a.row == b.row then a.col < b.col else a.row < b.row
  }

  /** `!(b < a)`: the "does not come after" relation an index sort leaves behind. */
  predicate NoLater(a: Key, b: Key) {
    !Less(b, a)
  }

  /** Non-decreasing under `Key::operator<`: no later key is less than an earlier one. */
  ghost predicate Sorted(s: seq<Key>) {
    forall i, j :: 0 <= i < j < |s| ==> NoLater(s[i], s[j])
  }

  /** `operator<` is the lexicographic order on (row, col). */
  lemma LessIsLexicographic(a: Key, b: Key)
    ensures Less(a, b) <==> (a.row < b.row || (a.row == b.row && a.col < b.col))
  {
  }

  /**
   * `operator<` is a strict total order on keys: irreflexive, transitive, and
   * for two distinct keys exactly one of `a < b` and `b < a` holds.
   */
  lemma LessIsStrictTotalOrder(a: Key, b: Key, c: Key)
    ensures !Less(a, a)
    ensures Less(a, b) && Less(b, c) ==> Less(a, c)
    ensures a != b ==> (Less(a, b) || Less(b, a)) && !(Less(a, b) && Less(b, a))
  {
  }

  /** "Does not come after" is a total preorder, and antisymmetric on keys. */
  lemma NoLaterIsTotalOrder(a: Key, b: Key, c: Key)
    ensures NoLater(a, a)
    ensures NoLater(a, b) && NoLater(b, c) ==> NoLater(a, c)
    ensures NoLater(a, b) || NoLater(b, a)
    ensures NoLater(a, b) && NoLater(b, a) ==> a == b
  {
  }
}
