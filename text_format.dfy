/** The line-oriented text format of a sparse matrix. A file is a sequence of lines:
      rows=<R>
      cols=<C>
      (<row>, <col>, <value>)      one per stored entry
    Serialize is what saveToFile writes; Load is what loadFromFile accepts and builds. */
module TextFormat {
  import opened Errors
  import opened Entries
  import opened Numbers

  /** The state a load produces: dimensions and the entry list, in the order it was built. */
  datatype Snapshot = Snapshot(rows: int, cols: int, elements: seq<Entry>)

  /** Outcome of reading one body line. */
  datatype LineOutcome = Skipped | Parsed(entry: Entry) | Rejected(error: MatrixError)

  /** The line saveToFile writes for one entry. */
  function EntryLine(e: Entry): (line: string)
    ensures Wrapped(line)
  {
    "(" + IntToString(e.row) + ", " + IntToString(e.col) + ", " + IntToString(e.value) + ")"
  }

  /** A header line: its key ("rows=" or "cols=") followed by the number. */
  function HeaderLine(key: string, n: int): (line: string)
    ensures HasPrefix(line, key)
    ensures InIntRange(n) ==> Stoi(line[|key|..]) == Success(n)
  {
    StoiOfIntToString("", n);
    assert "" + IntToString(n) == (key + IntToString(n))[|key|..];
    key + IntToString(n)
  }

  /** One line per entry, in order. */
  function EntryLines(es: seq<Entry>): (lines: seq<string>)
    ensures |lines| == |es|
    ensures forall k :: 0 <= k < |es| ==> lines[k] == EntryLine(es[k])
  {
    if es == [] then [] else [EntryLine(es[0])] + EntryLines(es[1..])
  }

  /** The lines saveToFile writes: the two header lines, then one line per entry, in order. */
  function Serialize(rows: int, cols: int, es: seq<Entry>): (lines: seq<string>)
    ensures |lines| == 2 + |es|
    ensures lines[0] == HeaderLine("rows=", rows)
    ensures lines[1] == HeaderLine("cols=", cols)
    ensures forall k :: 0 <= k < |es| ==> lines[k + 2] == EntryLine(es[k])
  {
    var header, body := [HeaderLine("rows=", rows), HeaderLine("cols=", cols)], EntryLines(es);
    assert forall k :: 0 <= k < |body| ==> (header + body)[k + 2] == body[k];
    header + body
  }

  /** Index of the first comma in s, or |s| when there is none. */
  function CommaIndex(s: string): (k: nat)
    ensures k <= |s|
    ensures k < |s| ==> s[k] == ','
    ensures forall m :: 0 <= m < k ==> s[m] != ','
  {
    if s == [] || s[0] == ',' then 0 else 1 + CommaIndex(s[1..])
  }

  /** The tokens that repeated std::getline(iss, token, ',') yields from s: the pieces between
      commas, except that a final piece left empty (s is empty or ends in a comma) is not produced. */
  function SplitCommas(s: string): (tokens: seq<string>)
    decreases |s|
    ensures |tokens| == 0 <==> s == ""
    ensures forall k :: 0 <= k < |tokens| ==> CommaFree(tokens[k])
  {
    if s == [] then []
    else
      var k := CommaIndex(s);
      if k == |s| then [s] else [s[..k]] + SplitCommas(s[k + 1..])
  }

  /** The pieces separated by single commas. */
  function JoinCommas(tokens: seq<string>): string {
    if |tokens| == 0 then ""
    else if |tokens| == 1 then tokens[0]
    else tokens[0] + "," + JoinCommas(tokens[1..])
  }

  predicate CommaFree(s: string) {
    forall k :: 0 <= k < |s| ==> s[k] != ','
  }

  /** The token loop of loadFromFile: push std::stoi of each token after acc, and stop with the
      error of the first token std::stoi rejects. */
  function ParseTokens(acc: seq<int>, tokens: seq<string>): (r: Result<seq<int>>)
    decreases |tokens|
    ensures r.Success? ==> |r.value| == |acc| + |tokens| && r.value[..|acc|] == acc
  {
    if tokens == [] then Success(acc)
    else
      match Stoi(tokens[0])
      case Failure(e) => Failure(e)
      case Success(n) =>
        ParseTokens(acc + [n], tokens[1..])
  }

  /** A body line the loader reads rather than skips: nonempty, starting with '(' and ending with ')'. */
  predicate Wrapped(line: string) {
    |line| > 0 && line[0] == '(' && line[|line| - 1] == ')'
  }

  /** One body line of loadFromFile: skipped unless wrapped; otherwise the text between the
      parentheses must split on commas into exactly three integers. */
  function ParseBodyLine(line: string): (o: LineOutcome)
    ensures o.Skipped? <==> !Wrapped(line)
    ensures o.Parsed? ==>
      var tokens := SplitCommas(line[1..|line| - 1]);
      |tokens| == 3 && Stoi(tokens[0]) == Success(o.entry.row)
      && Stoi(tokens[1]) == Success(o.entry.col) && Stoi(tokens[2]) == Success(o.entry.value)
  {
    if !Wrapped(line) then Skipped
    else
      match ParseTokens([], SplitCommas(line[1..|line| - 1]))
      case Failure(e) => Rejected(e)
      case Success(ns) =>
        ParseTokensPushes([], SplitCommas(line[1..|line| - 1]));
        if |ns| != 3 then Rejected(MalformedFile) else Parsed(Entry(ns[0], ns[1], ns[2]))
  }

  /** A body line the loader does not refuse: either it is not wrapped (and is skipped), or the
      text between its parentheses splits on commas into exactly three tokens, each of which
      std::stoi accepts. */
  predicate BodyLineAccepted(line: string) {
    Wrapped(line) ==>
      var tokens := SplitCommas(line[1..|line| - 1]);
      |tokens| == 3 && forall k :: 0 <= k < 3 ==> Stoi(tokens[k]).Success?
  }

  /** The body loop of loadFromFile, from the entries built so far: each parsed line is applied
      through setElement, a rejected line ends the load. */
  function LoadBody(acc: seq<Entry>, body: seq<string>): (r: Result<seq<Entry>>)
    decreases |body|
    ensures r.Success? ==> |r.value| <= |acc| + |body|
    ensures r.Failure? ==> exists k :: 0 <= k < |body| && ParseBodyLine(body[k]) == Rejected(r.error)
  {
    if body == [] then Success(acc)
    else
      match ParseBodyLine(body[0])
      case Skipped => LoadBody(acc, body[1..])
      case Rejected(e) => Failure(e)
      case Parsed(e) => LoadBody(Assign(acc, e.row, e.col, e.value), body[1..])
  }

  predicate HasPrefix(line: string, prefix: string) {
    |prefix| <= |line| && line[..|prefix|] == prefix
  }

  /** What loadFromFile builds from the lines of a file. */
  function Load(lines: seq<string>): (r: Result<Snapshot>)
    ensures r.Success? ==> |lines| >= 2 && HasPrefix(lines[0], "rows=") && HasPrefix(lines[1], "cols=")
    ensures r.Success? ==> Stoi(lines[0][5..]) == Success(r.value.rows)
    ensures r.Success? ==> Stoi(lines[1][5..]) == Success(r.value.cols)
  {
    if |lines| == 0 || !HasPrefix(lines[0], "rows=") then Failure(MalformedFile)
    else
      match Stoi(lines[0][5..])
      case Failure(e) => Failure(e)
      case Success(rows) =>
        if |lines| == 1 || !HasPrefix(lines[1], "cols=") then Failure(MalformedFile)
        else
          match Stoi(lines[1][5..])
          case Failure(e) => Failure(e)
          case Success(cols) =>
            match LoadBody([], lines[2..])
            case Failure(e) => Failure(e)
            case Success(es) => Success(Snapshot(rows, cols, es))
  }

  predicate EntryInIntRange(e: Entry) {
    InIntRange(e.row) && InIntRange(e.col) && InIntRange(e.value)
  }

  /** Loading keeps the store invariant: whatever it builds has no zeros and distinct coordinates. */
  lemma {:induction false} LoadBodyWellFormed(acc: seq<Entry>, body: seq<string>)
    requires WellFormed(acc)
    requires LoadBody(acc, body).Success?
    ensures WellFormed(LoadBody(acc, body).value)
    decreases |body|
  {
    if body != [] {
      match ParseBodyLine(body[0])
      case Skipped => LoadBodyWellFormed(acc, body[1..]);
      case Parsed(e) =>
        AssignWellFormed(acc, e.row, e.col, e.value);
        LoadBodyWellFormed(Assign(acc, e.row, e.col, e.value), body[1..]);
    }
  }

  lemma LoadWellFormed(lines: seq<string>)
    requires Load(lines).Success?
    ensures WellFormed(Load(lines).value.elements)
  {
    LoadBodyWellFormed([], lines[2..]);
  }

  /** The token loop succeeds exactly when std::stoi accepts every token. */
  lemma {:induction false} ParseTokensAccepts(acc: seq<int>, tokens: seq<string>)
    ensures ParseTokens(acc, tokens).Success? <==> forall k :: 0 <= k < |tokens| ==> Stoi(tokens[k]).Success?
    decreases |tokens|
  {
    if tokens != [] {
      var rest := tokens[1..];
      assert forall k :: 0 <= k < |rest| ==> rest[k] == tokens[k + 1];
      if Stoi(tokens[0]).Success? {
        ParseTokensAccepts(acc + [Stoi(tokens[0]).value], rest);
      }
    }
  }

  /** On success the token loop has pushed, after acc, the number std::stoi reads from each token, in order. */
  lemma {:induction false} ParseTokensPushes(acc: seq<int>, tokens: seq<string>)
    requires ParseTokens(acc, tokens).Success?
    ensures forall k :: 0 <= k < |tokens| ==> Stoi(tokens[k]) == Success(ParseTokens(acc, tokens).value[|acc| + k])
    decreases |tokens|
  {
    if tokens != [] {
      var rest, n := tokens[1..], Stoi(tokens[0]).value;
      var r := ParseTokens(acc, tokens);
      assert r == ParseTokens(acc + [n], rest);
      ParseTokensPushes(acc + [n], rest);
      forall k | 0 <= k < |tokens| ensures Stoi(tokens[k]) == Success(r.value[|acc| + k]) {
        if k == 0 {
          assert r.value[..|acc| + 1] == acc + [n];
          assert r.value[|acc|] == (acc + [n])[|acc|];
        } else {
          assert rest[k - 1] == tokens[k];
          assert Stoi(rest[k - 1]) == Success(r.value[|acc + [n]| + (k - 1)]);
        }
      }
    }
  }

  /** On failure the token loop reports the error of the first token std::stoi rejects. */
  lemma {:induction false} ParseTokensFirstError(acc: seq<int>, tokens: seq<string>)
    requires ParseTokens(acc, tokens).Failure?
    ensures exists k ::
      0 <= k < |tokens| && (forall m :: 0 <= m < k ==> Stoi(tokens[m]).Success?) && Stoi(tokens[k]) == Failure(ParseTokens(acc, tokens).error)
    decreases |tokens|
  {
    var r := ParseTokens(acc, tokens);
    if Stoi(tokens[0]).Failure? {
      assert Stoi(tokens[0]) == Failure(r.error);
    } else {
      var rest := tokens[1..];
      ParseTokensFirstError(acc + [Stoi(tokens[0]).value], rest);
      var k :| 0 <= k < |rest| && (forall m :: 0 <= m < k ==> Stoi(rest[m]).Success?) && Stoi(rest[k]) == Failure(r.error);
      assert Stoi(tokens[k + 1]) == Failure(r.error);
      forall m | 0 <= m < k + 1 ensures Stoi(tokens[m]).Success? {
        if m > 0 {
          assert tokens[m] == rest[m - 1];
        }
      }
    }
  }

  /** Joining the tokens with commas gives back the text they were split from, short of a
      final comma that produced no token. */
  lemma {:induction false} SplitCommasJoin(s: string)
    ensures var tokens := SplitCommas(s);
      s == JoinCommas(tokens) || s == JoinCommas(tokens) + ","
    decreases |s|
  {
    var k := CommaIndex(s);
    if s != [] && k < |s| {
      var piece, rest := s[..k], s[k + 1..];
      SplitCommasJoin(rest);
      assert s == piece + "," + rest;
      JoinAfterPiece(s, piece, rest, SplitCommas(rest));
    }
  }

  /** The step of SplitCommasJoin: one more piece in front of the rest of the text. */
  lemma JoinAfterPiece(s: string, piece: string, rest: string, tokens: seq<string>)
    requires s == piece + "," + rest
    requires |tokens| == 0 <==> rest == ""
    requires rest == JoinCommas(tokens) || rest == JoinCommas(tokens) + ","
    ensures s == JoinCommas([piece] + tokens) || s == JoinCommas([piece] + tokens) + ","
  {
    if tokens == [] {
      assert JoinCommas([piece] + tokens) == piece;
    } else {
      assert ([piece] + tokens)[1..] == tokens;
      var joined := JoinCommas(tokens);
      assert JoinCommas([piece] + tokens) == piece + "," + joined;
      if rest == joined + "," {
        assert s == (piece + "," + joined) + ",";
      }
    }
  }

  /** A comma-free piece followed by a comma is the first token, whatever follows. */
  lemma SplitCons(t: string, rest: string)
    requires CommaFree(t)
    ensures SplitCommas(t + "," + rest) == [t] + SplitCommas(rest)
  {
    var s := t + "," + rest;
    assert CommaIndex(s) == |t| by {
      assert s[|t|] == ',';
      assert forall m :: 0 <= m < |t| ==> s[m] == t[m];
    }
    assert s[..|t|] == t && s[|t| + 1..] == rest;
  }

  /** A nonempty comma-free string is a single token. */
  lemma SplitSingle(t: string)
    requires CommaFree(t) && t != ""
    ensures SplitCommas(t) == [t]
  {
    assert CommaIndex(t) == |t|;
  }

  /** getline splitting undoes joining with commas, when no piece holds a comma and the last is not empty. */
  lemma {:induction false} SplitJoin(tokens: seq<string>)
    requires forall k :: 0 <= k < |tokens| ==> CommaFree(tokens[k])
    requires tokens != [] ==> tokens[|tokens| - 1] != ""
    ensures SplitCommas(JoinCommas(tokens)) == tokens
  {
    if |tokens| == 1 {
      SplitSingle(tokens[0]);
    } else if |tokens| > 1 {
      SplitCons(tokens[0], JoinCommas(tokens[1..]));
      SplitJoin(tokens[1..]);
    }
  }

  lemma IntToStringCommaFree(n: int)
    ensures CommaFree(IntToString(n)) && IntToString(n) != ""
  {
    var d := NatToString(if n < 0 then -n else n);
    assert forall k :: 0 <= k < |d| ==> IsDigit(d[k]);
  }

  lemma RegroupFields(a: string, b: string, c: string)
    ensures a + ", " + b + ", " + c == a + "," + ((" " + b) + "," + (" " + c))
  {
  }

  /** The text between the parentheses of an entry line splits into its three fields. */
  lemma SplitEntryFields(a: string, b: string, c: string)
    requires CommaFree(a) && CommaFree(b) && CommaFree(c) && c != ""
    ensures SplitCommas(a + ", " + b + ", " + c) == [a, " " + b, " " + c]
  {
    RegroupFields(a, b, c);
    assert CommaFree(" " + b) && CommaFree(" " + c);
    SplitCons(a, (" " + b) + "," + (" " + c));
    SplitCons(" " + b, " " + c);
    SplitSingle(" " + c);
  }

  /** The three fields of an entry line parse back to the entry's numbers. */
  lemma ParseEntryFields(e: Entry)
    requires EntryInIntRange(e)
    ensures ParseTokens([], [IntToString(e.row), " " + IntToString(e.col), " " + IntToString(e.value)])
         == Success([e.row, e.col, e.value])
  {
    var tokens := [IntToString(e.row), " " + IntToString(e.col), " " + IntToString(e.value)];
    assert ParseTokens([], tokens) == ParseTokens([e.row], tokens[1..]) by {
      StoiOfIntToString("", e.row);
      assert "" + IntToString(e.row) == IntToString(e.row);
      assert [] + [e.row] == [e.row];
    }
    assert ParseTokens([e.row], tokens[1..]) == ParseTokens([e.row, e.col], tokens[2..]) by {
      StoiOfIntToString(" ", e.col);
      assert [e.row] + [e.col] == [e.row, e.col];
    }
    assert ParseTokens([e.row, e.col], tokens[2..]) == ParseTokens([e.row, e.col, e.value], []) by {
      StoiOfIntToString(" ", e.value);
      assert [e.row, e.col] + [e.value] == [e.row, e.col, e.value];
    }
  }

  /** The loader reads back the line saveToFile writes for an entry. */
  lemma ParseEntryLine(e: Entry)
    requires EntryInIntRange(e)
    ensures ParseBodyLine(EntryLine(e)) == Parsed(e)
  {
    var a, b, c := IntToString(e.row), IntToString(e.col), IntToString(e.value);
    var line := EntryLine(e);
    var inner := a + ", " + b + ", " + c;
    WrapFields(a, b, c);
    assert SplitCommas(inner) == [a, " " + b, " " + c] by {
      IntToStringCommaFree(e.row);
      IntToStringCommaFree(e.col);
      IntToStringCommaFree(e.value);
      SplitEntryFields(a, b, c);
    }
    ParseEntryFields(e);
  }

  /** The parentheses around three fields are what the loader strips. */
  lemma WrapFields(a: string, b: string, c: string)
    ensures var line := "(" + a + ", " + b + ", " + c + ")";
      Wrapped(line) && line[1..|line| - 1] == a + ", " + b + ", " + c
  {
    var inner := a + ", " + b + ", " + c;
    assert "(" + a + ", " + b + ", " + c + ")" == "(" + inner + ")";
  }

  /** A body line that is empty or not wrapped in parentheses is passed over. */
  lemma SkipUnwrapped(acc: seq<Entry>, line: string, rest: seq<string>)
    requires !Wrapped(line)
    ensures LoadBody(acc, [line] + rest) == LoadBody(acc, rest)
  {
    assert ([line] + rest)[1..] == rest;
  }

  /** A body line is refused exactly when it is wrapped and its inside is not three integers. */
  lemma BodyLineRejected(line: string)
    ensures ParseBodyLine(line).Rejected? <==> !BodyLineAccepted(line)
  {
    if Wrapped(line) {
      ParseTokensAccepts([], SplitCommas(line[1..|line| - 1]));
    }
  }

  /** A wrapped body line that is not three integers makes the whole load fail, whatever follows. */
  lemma RejectWrapped(acc: seq<Entry>, line: string, rest: seq<string>)
    requires Wrapped(line)
    requires var p := ParseTokens([], SplitCommas(line[1..|line| - 1])); p.Failure? || |p.value| != 3
    ensures LoadBody(acc, [line] + rest).Failure?
  {
    assert ([line] + rest)[0] == line;
  }

  /** The body loop succeeds exactly when no body line is refused. */
  lemma {:induction false} LoadBodyAccepts(acc: seq<Entry>, body: seq<string>)
    ensures LoadBody(acc, body).Success? <==> forall k :: 0 <= k < |body| ==> BodyLineAccepted(body[k])
    decreases |body|
  {
    if body != [] {
      var rest := body[1..];
      assert forall k :: 0 <= k < |rest| ==> rest[k] == body[k + 1];
      BodyLineRejected(body[0]);
      match ParseBodyLine(body[0])
      case Skipped => LoadBodyAccepts(acc, rest);
      case Rejected(_) =>
      case Parsed(e) => LoadBodyAccepts(Assign(acc, e.row, e.col, e.value), rest);
    }
  }

  /** A file loads exactly when it opens with a rows= line and a cols= line whose numbers
      std::stoi accepts, and no later line is refused. */
  lemma LoadAccepts(lines: seq<string>)
    ensures Load(lines).Success? <==>
      |lines| >= 2 && HasPrefix(lines[0], "rows=") && HasPrefix(lines[1], "cols=")
      && Stoi(lines[0][5..]).Success? && Stoi(lines[1][5..]).Success?
      && forall k :: 2 <= k < |lines| ==> BodyLineAccepted(lines[k])
  {
    if |lines| >= 2 {
      var body := lines[2..];
      LoadBodyAccepts([], body);
      assert forall k :: 2 <= k < |lines| ==> lines[k] == body[k - 2];
    }
  }

  /** An entry line with value 0 leaves its coordinate reading 0: it erases an entry stored there
      and stores nothing when there is none. */
  lemma ZeroLineStoresNothing(acc: seq<Entry>, r: int, c: int, rest: seq<string>)
    requires DistinctCoords(acc) && InIntRange(r) && InIntRange(c)
    ensures LoadBody(acc, [EntryLine(Entry(r, c, 0))] + rest) == LoadBody(Assign(acc, r, c, 0), rest)
    ensures Lookup(Assign(acc, r, c, 0), r, c) == 0
    ensures FindCoord(acc, r, c) == |acc| ==> Assign(acc, r, c, 0) == acc
  {
    ParseEntryLine(Entry(r, c, 0));
    assert ([EntryLine(Entry(r, c, 0))] + rest)[1..] == rest;
    AssignGet(acc, r, c, 0, r, c);
  }

  /** Loading the entry lines of a well-formed list appends every entry, in order. */
  lemma {:induction false} LoadBodyOfEntryLines(acc: seq<Entry>, es: seq<Entry>, body: seq<string>)
    requires WellFormed(acc + es)
    requires forall k :: 0 <= k < |es| ==> EntryInIntRange(es[k])
    requires body == EntryLines(es)
    ensures LoadBody(acc, body) == Success(acc + es)
    decreases |es|
  {
    if es == [] {
      assert acc + es == acc;
    } else {
      var e := es[0];
      ParseEntryLine(e);
      assert ParseBodyLine(body[0]) == Parsed(e);
      assert LoadBody(acc, body) == LoadBody(Assign(acc, e.row, e.col, e.value), body[1..]);
      MoveFirst(acc, es);
      PrefixWellFormed(acc + es, |acc| + 1);
      AssignAppend(acc, e);
      LoadBodyOfEntryLines(acc + [e], es[1..], body[1..]);
    }
  }

  lemma MoveFirst(acc: seq<Entry>, es: seq<Entry>)
    requires es != []
    ensures (acc + [es[0]]) + es[1..] == acc + es
    ensures (acc + es)[..|acc| + 1] == acc + [es[0]]
  {
  }

  /** Round trip: loading what saveToFile wrote gives back the dimensions and the very same entry
      list, hence the same value at every coordinate. */
  lemma RoundTrip(rows: int, cols: int, es: seq<Entry>)
    requires WellFormed(es)
    requires InIntRange(rows) && InIntRange(cols)
    requires forall k :: 0 <= k < |es| ==> EntryInIntRange(es[k])
    ensures Load(Serialize(rows, cols, es)) == Success(Snapshot(rows, cols, es))
  {
    var lines := Serialize(rows, cols, es);
    assert Stoi(lines[0][5..]) == Success(rows) && Stoi(lines[1][5..]) == Success(cols);
    assert lines[2..] == EntryLines(es);
    LoadBodyOfEntryLines([], es, lines[2..]);
    assert [] + es == es;
  }

  /** The lines of one more entry. */
  lemma EntryLinesStep(es: seq<Entry>, k: int)
    requires 0 <= k < |es|
    ensures EntryLines(es[..k + 1]) == EntryLines(es[..k]) + [EntryLine(es[k])]
  {
    assert es[..k + 1] == es[..k] + [es[k]];
    EntryLinesSnoc(es[..k], es[k]);
  }

  /** The lines of entries with one entry appended. */
  lemma {:induction false} EntryLinesSnoc(es: seq<Entry>, e: Entry)
    ensures EntryLines(es + [e]) == EntryLines(es) + [EntryLine(e)]
  {
    if es == [] {
      assert es + [e] == [e];
    } else {
      assert (es + [e])[1..] == es[1..] + [e];
      EntryLinesSnoc(es[1..], e);
      AppendAfter([EntryLine(es[0])], EntryLines(es[1..]), EntryLine(e));
    }
  }

  /** Appending to the lines after a fixed header. */
  lemma AppendAfter<T>(header: seq<T>, body: seq<T>, x: T)
    ensures header + (body + [x]) == header + body + [x]
  {
  }
}
