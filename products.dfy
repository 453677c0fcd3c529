/** What multiply computes. ProductSum follows the source's pairing of entries: every left
    entry (i, k, v1) contributes v1 times the right operand's value at (k, j). DenseProduct is the
    textbook definition, a sum over every column index k below n. */
module Products {
  import opened Entries

  /** Sum, over the left entries in row i, of each value times the right operand's value at (its column, j). */
  function ProductSum(a: seq<Entry>, b: seq<Entry>, i: int, j: int): (s: int)
    ensures (forall k :: 0 <= k < |a| ==> a[k].row != i) ==> s == 0
  {
    if a == [] then 0
    else
      var e := a[|a| - 1];
      ProductSum(a[..|a| - 1], b, i, j) + (if e.row == i then e.value * Lookup(b, e.col, j) else 0)
  }

  /** The sum of A(i, k) * B(k, j) over 0 <= k < n. */
  function DenseProduct(a: seq<Entry>, b: seq<Entry>, i: int, j: int, n: int): int
    decreases n
  {
    if n <= 0 then 0
    else DenseProduct(a, b, i, j, n - 1) + Lookup(a, i, n - 1) * Lookup(b, n - 1, j)
  }

  /** Every column index stored in the entries lies in [0, n). */
  ghost predicate ColumnsWithin(a: seq<Entry>, n: int) {
    forall k :: 0 <= k < |a| ==> 0 <= a[k].col < n
  }

  /** Adding an entry at a coordinate that reads 0 adds exactly its term to the dense sum;
      grown is the left operand with e added, given by how it reads in row i. */
  lemma {:induction false} DenseProductGrow(a: seq<Entry>, grown: seq<Entry>, e: Entry, b: seq<Entry>, i: int, j: int, n: int)
    requires forall k :: Lookup(grown, i, k) == if At(e, i, k) then e.value else Lookup(a, i, k)
    requires forall k :: At(e, i, k) ==> Lookup(a, i, k) == 0
    ensures DenseProduct(grown, b, i, j, n)
         == DenseProduct(a, b, i, j, n) + (if e.row == i && 0 <= e.col < n then e.value * Lookup(b, e.col, j) else 0)
    decreases n
  {
    if n > 0 {
      DenseProductGrow(a, grown, e, b, i, j, n - 1);
      var lb := Lookup(b, n - 1, j);
      var la, la' := Lookup(a, i, n - 1), Lookup(grown, i, n - 1);
      var d, d' := DenseProduct(a, b, i, j, n - 1), DenseProduct(grown, b, i, j, n - 1);
      var t := if e.row == i && 0 <= e.col < n then e.value * Lookup(b, e.col, j) else 0;
      var t' := if e.row == i && 0 <= e.col < n - 1 then e.value * Lookup(b, e.col, j) else 0;
      assert d' == d + t';
      assert DenseProduct(a, b, i, j, n) == d + la * lb;
      assert DenseProduct(grown, b, i, j, n) == d' + la' * lb;
      if At(e, i, n - 1) {
        assert la == 0 && la' == e.value && d' == d && t' == 0;
        assert t == la' * lb;
        ZeroTermGrows(d, la, la', lb);
      } else {
        assert la' == la && t == t';
      }
    }
  }

  /** Replacing a zero factor by v adds v times the other factor to a sum. */
  lemma ZeroTermGrows(d: int, la: int, v: int, lb: int)
    requires la == 0
    ensures d + v * lb == (d + la * lb) + v * lb
  {
  }

  /** Given distinct coordinates and columns below n, the entry pairing computes the matrix product. */
  lemma {:induction false} ProductSumIsDense(a: seq<Entry>, b: seq<Entry>, i: int, j: int, n: int)
    requires DistinctCoords(a)
    requires ColumnsWithin(a, n)
    ensures ProductSum(a, b, i, j) == DenseProduct(a, b, i, j, n)
  {
    if a == [] {
      DenseProductOfEmpty(b, i, j, n);
    } else {
      var a', e := a[..|a| - 1], a[|a| - 1];
      assert a' + [e] == a;
      ProductSumIsDense(a', b, i, j, n);
      forall k ensures Lookup(a, i, k) == (if At(e, i, k) then e.value else Lookup(a', i, k))
        ensures At(e, i, k) ==> Lookup(a', i, k) == 0
      {
        LookupSnoc(a', e, i, k);
      }
      DenseProductGrow(a', a, e, b, i, j, n);
    }
  }

  lemma {:induction false} DenseProductOfEmpty(b: seq<Entry>, i: int, j: int, n: int)
    ensures DenseProduct([], b, i, j, n) == 0
    decreases n
  {
    if n > 0 {
      DenseProductOfEmpty(b, i, j, n - 1);
    }
  }
}
