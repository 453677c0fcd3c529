/** Concrete inputs to std::stoi, to the loader and to the matrix operations. */
module Scenarios {
  import opened Errors
  import opened Numbers
  import opened TextFormat
  import opened Entries
  import opened Products
  import opened SparseMatrices

  /** std::stoi skips a leading blank and ignores the letters after the digits. */
  lemma StoiSkipsBlankAndJunk()
    ensures Stoi(" 3abc") == Success(3)
  {
    assert SkipSpaces(" 3abc") == "3abc" by {
      SkipSpacesPrefix(" ", "3abc");
      assert " " + "3abc" == " 3abc";
    }
    var u := "3abc";
    assert DigitRun(u) == 1 by { assert DigitRun(u[1..]) == 0; }
    assert DigitsValue(u[..1]) == 3 by { assert u[..1] == "3"; }
  }

  /** std::stoi skips a leading tab, reads a minus sign and stops at the closing parenthesis. */
  lemma StoiReadsSignedPrefix()
    ensures Stoi("\t-12)") == Success(-12)
  {
    assert SkipSpaces("\t-12)") == "-12)" by {
      SkipSpacesPrefix("\t", "-12)");
      assert "\t" + "-12)" == "\t-12)";
    }
    var w := "12)";
    assert DigitRun(w) == 2 by { assert DigitRun(w[2..]) == 0; }
    assert DigitsValue(w[..2]) == 12 by {
      var d := w[..2];
      assert d == "12" && d[..1] == "1";
      assert DigitsValue(d[..1]) == 1;
    }
    assert "-12)"[1..] == w;
  }

  /** std::stoi rejects text with no digits where the number should start. */
  lemma StoiRejects()
    ensures Stoi(" x") == Failure(MalformedFile)
    ensures Stoi("-") == Failure(MalformedFile)
  {
    assert SkipSpaces(" x") == "x" by {
      SkipSpacesPrefix(" ", "x");
      assert " " + "x" == " x";
    }
    assert SkipSpaces("-") == "-";
  }

  /** A file must open with a rows= line and then a cols= line. */
  lemma MissingColsLine()
    ensures Load([]) == Failure(MalformedFile)
    ensures Load(["rows=2"]) == Failure(MalformedFile)
    ensures Load(["rows=2", "columns=2"]) == Failure(MalformedFile)
    ensures Load(["cols=2", "rows=2"]) == Failure(MalformedFile)
  {
    assert HasPrefix("rows=2", "rows=") by { assert "rows=2"[..5] == "rows="; }
    assert "rows=2"[5..] == "2";
    assert Stoi("2") == Success(2) by { StoiOfIntToString("", 2); }
    assert !HasPrefix("columns=2", "cols=") by { assert "columns=2"[3] == 'u'; }
    assert !HasPrefix("cols=2", "rows=") by { assert "cols=2"[0] == 'c'; }
  }

  /** The tokens of the body line "(1, 2)": two numbers that std::stoi accepts. */
  lemma TwoFieldTokens(line: string)
    requires line == "(1, 2)"
    ensures Wrapped(line) && SplitCommas(line[1..|line| - 1]) == ["1", " 2"]
    ensures Stoi("1") == Success(1) && Stoi(" 2") == Success(2)
  {
    assert line[1..|line| - 1] == "1" + "," + " 2";
    SplitCons("1", " 2");
    SplitSingle(" 2");
    StoiOfIntToString("", 1);
    assert "" + IntToString(1) == "1";
    StoiOfIntToString(" ", 2);
    assert " " + IntToString(2) == " 2";
  }

  /** A wrapped body line holding two numbers instead of three is refused as malformed. */
  lemma TwoFieldLine(line: string)
    requires line == "(1, 2)"
    ensures ParseBodyLine(line) == Rejected(MalformedFile)
  {
    TwoFieldTokens(line);
    ParseTokensAccepts([], ["1", " 2"]);
  }

  /** Such a line makes the whole load fail. */
  lemma TwoFieldFile()
    ensures Load(["rows=2", "cols=2", "(1, 2)"]) == Failure(MalformedFile)
  {
    var lines := ["rows=2", "cols=2", "(1, 2)"];
    assert HasPrefix(lines[0], "rows=") by { assert lines[0][..5] == "rows="; }
    assert HasPrefix(lines[1], "cols=") by { assert lines[1][..5] == "cols="; }
    assert lines[0][5..] == "2" && lines[1][5..] == "2";
    assert Stoi("2") == Success(2) by {
      StoiOfIntToString("", 2);
      assert "" + IntToString(2) == "2";
    }
    TwoFieldLine(lines[2]);
    assert lines[2..] == [lines[2]];
  }

  /** Reading the entry lists of the example matrices A and B below. */
  lemma ExampleLookups(a: seq<Entry>, b: seq<Entry>)
    requires a == [Entry(0, 0, 1), Entry(1, 1, 2)] && b == [Entry(0, 0, 3), Entry(0, 1, 4)]
    ensures Lookup(a, 0, 0) == 1 && Lookup(a, 0, 1) == 0 && Lookup(a, 1, 0) == 0 && Lookup(a, 1, 1) == 2
    ensures Lookup(b, 0, 0) == 3 && Lookup(b, 0, 1) == 4 && Lookup(b, 1, 0) == 0 && Lookup(b, 1, 1) == 0
  {
    FindCoordIs(a, 0, 0, 0);
    FindCoordIs(a, 0, 1, 2);
    FindCoordIs(a, 1, 0, 2);
    FindCoordIs(a, 1, 1, 1);
    FindCoordIs(b, 0, 0, 0);
    FindCoordIs(b, 0, 1, 1);
    FindCoordIs(b, 1, 0, 2);
    FindCoordIs(b, 1, 1, 2);
  }

  /** The entry pairing of multiply on A and B gives the product A B. */
  lemma ExampleProductSums(a: seq<Entry>, b: seq<Entry>)
    requires a == [Entry(0, 0, 1), Entry(1, 1, 2)] && b == [Entry(0, 0, 3), Entry(0, 1, 4)]
    ensures ProductSum(a, b, 0, 0) == 3 && ProductSum(a, b, 0, 1) == 4
    ensures ProductSum(a, b, 1, 0) == 0 && ProductSum(a, b, 1, 1) == 0
  {
    ExampleLookups(a, b);
    var first := a[..1];
    assert first == [Entry(0, 0, 1)] && first[..0] == [];
    forall i, j ensures ProductSum(first, b, i, j) == if i == 0 then Lookup(b, 0, j) else 0 {
      assert ProductSum(first[..0], b, i, j) == 0;
    }
  }

  /** Two 2 x 2 matrices, A with entries (0, 0, 1), (1, 1, 2) and B with (0, 0, 3), (0, 1, 4),
      built through the dimensions constructor and setElement, then added and multiplied. */
  method AddAndMultiplyExample() returns (sum: SparseMatrix, product: SparseMatrix)
    ensures sum.GetElement(0, 0) == 4 && sum.GetElement(0, 1) == 4
    ensures sum.GetElement(1, 0) == 0 && sum.GetElement(1, 1) == 2
    ensures product.GetElement(0, 0) == 3 && product.GetElement(0, 1) == 4
    ensures product.GetElement(1, 0) == 0 && product.GetElement(1, 1) == 0
  {
    var a := new SparseMatrix(2, 2);
    a.SetElement(0, 0, 1);
    assert a.elements == [Entry(0, 0, 1)];
    a.SetElement(1, 1, 2);
    assert a.elements == [Entry(0, 0, 1), Entry(1, 1, 2)];
    var b := new SparseMatrix(2, 2);
    b.SetElement(0, 0, 3);
    assert b.elements == [Entry(0, 0, 3)];
    b.SetElement(0, 1, 4);
    assert b.elements == [Entry(0, 0, 3), Entry(0, 1, 4)];
    ExampleLookups(a.elements, b.elements);
    ExampleProductSums(a.elements, b.elements);
    var added := a.Add(b);
    var multiplied := a.Multiply(b);
    sum, product := added.value, multiplied.value;
  }
}
