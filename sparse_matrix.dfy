/** The SparseMatrix class: fixed dimensions and a coordinate list of nonzero entries that
    setElement updates in place, three binary operations that build a new matrix, and the text
    codec over a file given as its sequence of lines. */
module SparseMatrices {
  import opened Errors
  import opened Entries
  import opened Products
  import opened Numbers
  import opened TextFormat

  class SparseMatrix {
    const rows: int
    const cols: int
    var elements: seq<Entry>

    /** The store invariant: no stored zeros, at most one entry per coordinate. */
    ghost predicate Valid()
      reads this
    {
      WellFormed(elements)
    }

    /** A rows x cols matrix with no entries. */
    constructor (numRows: int, numCols: int)
      ensures rows == numRows && cols == numCols && elements == []
      ensures Valid()
    {
      rows, cols := numRows, numCols;
      elements := [];
    }

    /** The value stored at (r, c), or 0 when no entry matches. */
    function GetElement(r: int, c: int): (v: int)
      reads this
      ensures v != 0 ==> exists k :: 0 <= k < |elements| && elements[k] == Entry(r, c, v)
      ensures (forall k :: 0 <= k < |elements| ==> !At(elements[k], r, c)) ==> v == 0
      ensures Valid() ==> forall k :: 0 <= k < |elements| && At(elements[k], r, c) ==> v == elements[k].value
    {
      Lookup(elements, r, c)
    }

    /** Overwrite the entry at (r, c) in place, erase it when v is 0, or append a new one. */
    method SetElement(r: int, c: int, v: int)
      requires Valid()
      modifies this
      ensures Valid()
      ensures elements == Assign(old(elements), r, c, v)
      ensures forall r', c' :: Lookup(elements, r', c') == if r' == r && c' == c then v else Lookup(old(elements), r', c')
      ensures FindCoord(old(elements), r, c) == |old(elements)| && v == 0 ==> elements == old(elements)
    {
      var i := FindCoord(elements, r, c);
      if i < |elements| {
        if v != 0 {
          elements := elements[i := Entry(r, c, v)];
        } else {
          elements := elements[..i] + elements[i + 1..];
        }
      } else if v != 0 {
        elements := elements + [Entry(r, c, v)];
      }
      AssignWellFormed(old(elements), r, c, v);
      forall r', c' ensures Lookup(elements, r', c') == if r' == r && c' == c then v else Lookup(old(elements), r', c') {
        AssignGet(old(elements), r, c, v, r', c');
      }
    }

    /** The entrywise sum; fails when the dimensions differ. */
    method Add(other: SparseMatrix) returns (res: Result<SparseMatrix>)
      requires Valid() && other.Valid()
      ensures res.Failure? <==> rows != other.rows || cols != other.cols
      ensures res.Failure? ==> res.error == DimensionMismatch
      ensures res.Success? ==> fresh(res.value) && res.value.Valid()
      ensures res.Success? ==> res.value.rows == rows && res.value.cols == cols
      ensures res.Success? ==> forall r, c :: res.value.GetElement(r, c) == GetElement(r, c) + other.GetElement(r, c)
    {
      if rows != other.rows || cols != other.cols {
        return Failure(DimensionMismatch);
      }
      var result := new SparseMatrix(rows, cols);
      CopyInto(result);
      result.FoldIn(other, false);
      return Success(result);
    }

    /** The entrywise difference; fails when the dimensions differ. */
    method Subtract(other: SparseMatrix) returns (res: Result<SparseMatrix>)
      requires Valid() && other.Valid()
      ensures res.Failure? <==> rows != other.rows || cols != other.cols
      ensures res.Failure? ==> res.error == DimensionMismatch
      ensures res.Success? ==> fresh(res.value) && res.value.Valid()
      ensures res.Success? ==> res.value.rows == rows && res.value.cols == cols
      ensures res.Success? ==> forall r, c :: res.value.GetElement(r, c) == GetElement(r, c) - other.GetElement(r, c)
    {
      if rows != other.rows || cols != other.cols {
        return Failure(DimensionMismatch);
      }
      var result := new SparseMatrix(rows, cols);
      CopyInto(result);
      result.FoldIn(other, true);
      return Success(result);
    }

    /** The second loop of add and subtract: each entry of other is folded into this matrix by
        reading the value at its coordinate and writing back that value plus the entry's value,
        or minus it when subtracting. */
    method FoldIn(other: SparseMatrix, subtract: bool)
      requires Valid() && other.Valid() && other != this
      modifies this
      ensures Valid()
      ensures forall r, c :: Lookup(elements, r, c) == Combine(Lookup(old(elements), r, c), Lookup(other.elements, r, c), subtract)
    {
      ghost var base := elements;
      for j := 0 to |other.elements|
        invariant Valid()
        invariant forall r, c :: Lookup(elements, r, c) == Combine(Lookup(base, r, c), Lookup(other.elements[..j], r, c), subtract)
      {
        var e := other.elements[j];
        var current := GetElement(e.row, e.col);
        ghost var before := elements;
        var v := Combine(current, e.value, subtract);
        SetElement(e.row, e.col, v);
        CombineStep(base, other.elements, j, subtract, before, v, elements);
      }
      assert other.elements[..|other.elements|] == other.elements;
    }

    /** The first loop of add and subtract: apply every entry of this matrix to the empty result,
        which leaves the result holding the very same entry list. */
    method CopyInto(result: SparseMatrix)
      requires Valid() && result.Valid() && result.elements == []
      requires result != this
      modifies result
      ensures result.Valid() && result.elements == elements
    {
      for i := 0 to |elements|
        invariant result.Valid() && result.elements == elements[..i]
      {
        var e := elements[i];
        PrefixWellFormed(elements, i + 1);
        assert elements[..i + 1] == elements[..i] + [e];
        AssignAppend(elements[..i], e);
        result.SetElement(e.row, e.col, e.value);
      }
      assert elements[..|elements|] == elements;
    }

    /** The matrix product; fails unless this matrix has as many columns as other has rows. */
    method Multiply(other: SparseMatrix) returns (res: Result<SparseMatrix>)
      requires Valid() && other.Valid()
      ensures res.Failure? <==> cols != other.rows
      ensures res.Failure? ==> res.error == DimensionMismatch
      ensures res.Success? ==> fresh(res.value) && res.value.Valid()
      ensures res.Success? ==> res.value.rows == rows && res.value.cols == other.cols
      ensures res.Success? ==> forall i, j :: res.value.GetElement(i, j) == ProductSum(elements, other.elements, i, j)
      ensures res.Success? && ColumnsWithin(elements, cols) ==>
        forall i, j :: res.value.GetElement(i, j) == DenseProduct(elements, other.elements, i, j, cols)
    {
      if cols != other.rows {
        return Failure(DimensionMismatch);
      }
      var result := new SparseMatrix(rows, other.cols);
      for p := 0 to |elements|
        invariant result.Valid() && result.rows == rows && result.cols == other.cols
        invariant forall i, j :: Lookup(result.elements, i, j) == ProductSum(elements[..p], other.elements, i, j)
      {
        result.AddRowProducts(elements[p], other);
        ProductSumStep(elements, other.elements, p);
      }
      assert elements[..|elements|] == elements;
      if ColumnsWithin(elements, cols) {
        forall i, j ensures ProductSum(elements, other.elements, i, j) == DenseProduct(elements, other.elements, i, j, cols) {
          ProductSumIsDense(elements, other.elements, i, j, cols);
        }
      }
      return Success(result);
    }

    /** The inner loop of multiply: pair the left entry e1 with every entry of other whose row is
        the column of e1, adding the product of their values at (row of e1, column of the other). */
    method AddRowProducts(e1: Entry, other: SparseMatrix)
      requires Valid() && other.Valid() && other != this
      modifies this
      ensures Valid()
      ensures forall i, j ::
        Lookup(elements, i, j) == Lookup(old(elements), i, j) + (if i == e1.row then e1.value * Lookup(other.elements, e1.col, j) else 0)
    {
      ghost var base := elements;
      assert forall j :: Lookup(other.elements[..0], e1.col, j) == 0;
      assert forall i, j ::
        Lookup(elements, i, j) == Lookup(base, i, j) + (if i == e1.row then e1.value * Lookup(other.elements[..0], e1.col, j) else 0);
      for q := 0 to |other.elements|
        invariant Valid()
        invariant forall i, j ::
          Lookup(elements, i, j) == Lookup(base, i, j) + (if i == e1.row then e1.value * Lookup(other.elements[..q], e1.col, j) else 0)
      {
        var e2 := other.elements[q];
        ghost var before := elements;
        if e1.col == e2.row {
          var current := GetElement(e1.row, e2.col);
          SetElement(e1.row, e2.col, current + e1.value * e2.value);
        }
        PairStep(base, e1, other.elements, q, before, elements);
      }
      assert other.elements[..|other.elements|] == other.elements;
    }

    /** The lines saveToFile writes. */
    method SaveToFile() returns (lines: seq<string>)
      ensures lines == Serialize(rows, cols, elements)
    {
      lines := [HeaderLine("rows=", rows), HeaderLine("cols=", cols)];
      for k := 0 to |elements|
        invariant lines == [HeaderLine("rows=", rows), HeaderLine("cols=", cols)] + EntryLines(elements[..k])
      {
        EntryLinesStep(elements, k);
        AppendAfter([HeaderLine("rows=", rows), HeaderLine("cols=", cols)], EntryLines(elements[..k]), EntryLine(elements[k]));
        lines := lines + [EntryLine(elements[k])];
      }
      assert elements[..|elements|] == elements;
    }

    /** The matrix loadFromFile builds from the lines of a file, or the error it throws. */
    static method LoadFromFile(lines: seq<string>) returns (res: Result<SparseMatrix>)
      ensures res.Failure? <==> Load(lines).Failure?
      ensures res.Failure? ==> res.error == Load(lines).error
      ensures res.Success? ==> fresh(res.value) && res.value.Valid()
      ensures res.Success? ==> Load(lines).value == Snapshot(res.value.rows, res.value.cols, res.value.elements)
    {
      if |lines| == 0 || !HasPrefix(lines[0], "rows=") {
        return Failure(MalformedFile);
      }
      var rowsRead := Stoi(lines[0][5..]);
      if rowsRead.Failure? {
        return Failure(rowsRead.error);
      }
      if |lines| == 1 || !HasPrefix(lines[1], "cols=") {
        return Failure(MalformedFile);
      }
      var colsRead := Stoi(lines[1][5..]);
      if colsRead.Failure? {
        return Failure(colsRead.error);
      }
      var m := new SparseMatrix(rowsRead.value, colsRead.value);
      var body := lines[2..];
      for n := 0 to |body|
        invariant m.Valid() && m.rows == rowsRead.value && m.cols == colsRead.value
        invariant LoadBody([], body) == LoadBody(m.elements, body[n..])
      {
        var line := body[n];
        assert body[n..][1..] == body[n + 1..];
        if Wrapped(line) {
          var tokens := SplitCommas(line[1..|line| - 1]);
          var entry := ReadTokens(tokens);
          if entry.Failure? {
            return Failure(entry.error);
          }
          if |entry.value| != 3 {
            return Failure(MalformedFile);
          }
          m.SetElement(entry.value[0], entry.value[1], entry.value[2]);
        }
      }
      return Success(m);
    }

    /** The token loop of loadFromFile: std::stoi of each token, in order, stopping at the first
        token it rejects. */
    static method ReadTokens(tokens: seq<string>) returns (res: Result<seq<int>>)
      ensures res == ParseTokens([], tokens)
    {
      var entry: seq<int> := [];
      for t := 0 to |tokens|
        invariant ParseTokens([], tokens) == ParseTokens(entry, tokens[t..])
      {
        var value := Stoi(tokens[t]);
        assert tokens[t..][1..] == tokens[t + 1..];
        if value.Failure? {
          return Failure(value.error);
        }
        entry := entry + [value.value];
      }
      return Success(entry);
    }
  }

  /** Reading the prefix of a well-formed store grown by one entry. */
  lemma PrefixStep(es: seq<Entry>, j: int)
    requires WellFormed(es) && 0 <= j < |es|
    ensures forall r, c :: Lookup(es[..j + 1], r, c) == if At(es[j], r, c) then es[j].value else Lookup(es[..j], r, c)
    ensures forall r, c :: At(es[j], r, c) ==> Lookup(es[..j], r, c) == 0
  {
    PrefixWellFormed(es, j + 1);
    assert es[..j + 1] == es[..j] + [es[j]];
    forall r, c ensures Lookup(es[..j + 1], r, c) == if At(es[j], r, c) then es[j].value else Lookup(es[..j], r, c)
      ensures At(es[j], r, c) ==> Lookup(es[..j], r, c) == 0
    {
      LookupSnoc(es[..j], es[j], r, c);
    }
  }

  /** x + y, or x - y when subtracting. */
  function Combine(x: int, y: int, subtract: bool): int {
    if subtract then x - y else x + y
  }

  /** One step of the second loop of add and subtract: after folding in entry j of the right
      operand, the result reads base combined with the first j + 1 right entries. */
  lemma CombineStep(base: seq<Entry>, others: seq<Entry>, j: int, subtract: bool, before: seq<Entry>, v: int, after: seq<Entry>)
    requires WellFormed(others) && 0 <= j < |others|
    requires forall r, c :: Lookup(before, r, c) == Combine(Lookup(base, r, c), Lookup(others[..j], r, c), subtract)
    requires v == Combine(Lookup(before, others[j].row, others[j].col), others[j].value, subtract)
    requires forall r, c :: Lookup(after, r, c) == if r == others[j].row && c == others[j].col then v else Lookup(before, r, c)
    ensures forall r, c :: Lookup(after, r, c) == Combine(Lookup(base, r, c), Lookup(others[..j + 1], r, c), subtract)
  {
    PrefixStep(others, j);
  }

  /** One step of the inner loop of multiply: pairing left entry p with right entry q adds their
      product at (row of p, column of q) exactly when the column of p is the row of q. */
  lemma PairStep(base: seq<Entry>, e1: Entry, b: seq<Entry>, q: int, before: seq<Entry>, after: seq<Entry>)
    requires WellFormed(b) && 0 <= q < |b|
    requires forall i, j ::
      Lookup(before, i, j) == Lookup(base, i, j) + (if i == e1.row then e1.value * Lookup(b[..q], e1.col, j) else 0)
    requires e1.col == b[q].row ==> forall i, j ::
      Lookup(after, i, j) == if i == e1.row && j == b[q].col then Lookup(before, i, j) + e1.value * b[q].value else Lookup(before, i, j)
    requires e1.col != b[q].row ==> after == before
    ensures forall i, j ::
      Lookup(after, i, j) == Lookup(base, i, j) + (if i == e1.row then e1.value * Lookup(b[..q + 1], e1.col, j) else 0)
  {
    PrefixStep(b, q);
    var e2 := b[q];
    forall i, j
      ensures Lookup(after, i, j) == Lookup(base, i, j) + (if i == e1.row then e1.value * Lookup(b[..q + 1], e1.col, j) else 0)
    {
      var grown, prior := Lookup(b[..q + 1], e1.col, j), Lookup(b[..q], e1.col, j);
      if At(e2, e1.col, j) {
        assert grown == e2.value && prior == 0;
      } else {
        assert grown == prior;
      }
    }
  }

  /** The product sum over one more left entry. */
  lemma ProductSumStep(a: seq<Entry>, b: seq<Entry>, p: int)
    requires 0 <= p < |a|
    ensures forall i, j ::
      ProductSum(a[..p + 1], b, i, j) == ProductSum(a[..p], b, i, j) + (if a[p].row == i then a[p].value * Lookup(b, a[p].col, j) else 0)
  {
    assert a[..p + 1][..p] == a[..p];
  }
}
