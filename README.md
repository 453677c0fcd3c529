# Sparse matrix in coordinate-list form

This project models the C++ class `SparseMatrix` (`dsa/sparse_matrix/code/src/sparse_matrix.cpp`) in Dafny and proves what it computes.

The class stores an integer matrix as its dimensions plus a list of `(row, col, value)` entries. The list is scanned linearly, as `std::find_if` does.
- `getElement` returns the first matching entry's value, or 0 when no entry matches.
- `setElement` does one of four things:
  - it overwrites the value of the matching entry in place;
  - it erases the matching entry when the new value is 0;
  - it appends a new entry when the coordinate is absent and the value is nonzero;
  - otherwise it does nothing.
- `add` and `subtract` copy the left operand's entries into a new matrix, then fold each right entry in through `getElement` and `setElement`.
- `multiply` pairs every left entry `(i, k, v1)` with every right entry whose row is `k`, and accumulates `v1 * v2` at `(i, j)`.
- All three binary operations check the dimensions first and throw `std::invalid_argument` when they do not fit.
- `saveToFile` writes `rows=R`, then `cols=C`, then one `(r, c, v)` line per entry.
- `loadFromFile` works as follows:
  - It requires the two header prefixes and reads each number with `std::stoi`.
  - It skips any body line that is empty or not wrapped in parentheses.
  - It splits the text inside the parentheses at commas, as repeated `std::getline(iss, token, ',')` does.
  - It parses each token with `std::stoi`.
  - It fails unless exactly three integers result.
  - It applies each entry through `setElement`.

Layout:
- `errors.dfy` holds the error kinds, standing for the exceptions thrown, and a `Result` type.
- `entries.dfy` holds the store:
  - `FindCoord` is `find_if`;
  - `Lookup` is the value `getElement` reads;
  - `Assign` is the new list `setElement` leaves;
  - `WellFormed` is the store invariant: no stored zeros and distinct coordinates.
- `products.dfy` holds two definitions of what `multiply` computes:
  - the entry pairing (`ProductSum`);
  - the textbook sum over a column index (`DenseProduct`).
- `numbers.dfy` holds `operator<<` on `int` (`IntToString`) and `std::stoi` (`Stoi`).
- `text_format.dfy` holds the line format:
  - `Serialize` is what `saveToFile` writes;
  - `SplitCommas` is the `getline` split;
  - `Load` is what `loadFromFile` builds or the error it throws.
- `sparse_matrix.dfy` holds the class `SparseMatrix`. Its field `elements` is updated in place by `SetElement`. Its methods mirror the source's loops and are proved against the functions above.
- `scenarios.dfy` holds concrete cases:
  - the 2 x 2 add and multiply example;
  - `std::stoi` on lenient and rejected inputs;
  - files with a missing or misnamed header;
  - a body line holding two numbers instead of three.

`SetElement`, `Add`, `Subtract`, `FoldIn`, `CopyInto`, `Multiply` and `AddRowProducts` require `Valid()`, the store invariant, of the matrices they read. `elements` is private in the source and only `setElement` changes it. Every matrix the class builds therefore satisfies it: the constructor establishes it, `SetElement` is proved to preserve it, and `LoadFromFile` returns a valid matrix. `GetElement` and `SaveToFile` do not need it, and the static `LoadFromFile` and `ReadTokens` read no existing matrix.

Two consequences of the code:
- For A = {(0,0,1), (1,1,2)} and B = {(0,0,3), (0,1,4)}, A·B is 0 at (1, 1), because B has no entry in row 1 (`Scenarios.AddAndMultiplyExample`).
- The body loop of `loadFromFile` (lines 141-145) catches only `std::invalid_argument` from `std::stoi` and rethrows it as "wrong format". An `std::out_of_range` passes through unchanged. The model keeps the two apart as `MalformedFile` and `NumberOutOfRange`.

## Model

| member | source | states |
|---|---|---|
| SparseMatrices.SparseMatrix.constructor | dsa/sparse_matrix/code/src/sparse_matrix.cpp:19 | a new matrix has the given dimensions and no entries, and satisfies the store invariant |
| SparseMatrices.SparseMatrix.GetElement | dsa/sparse_matrix/code/src/sparse_matrix.cpp:21-27 | a nonzero result is the value of an entry stored at (r, c); with no entry at (r, c) the result is 0; in a valid store it equals the value of any entry at (r, c); as a function it changes nothing |
| Entries.FindCoord | dsa/sparse_matrix/code/src/sparse_matrix.cpp:22-25 | the index found is the first entry at (r, c), or the length of the list when none matches |
| Entries.Lookup | dsa/sparse_matrix/code/src/sparse_matrix.cpp:21-27 | a nonzero result is the value of an entry stored at (r, c); with no entry at (r, c) the result is 0 |
| Entries.Assign | dsa/sparse_matrix/code/src/sparse_matrix.cpp:29-44 | the new list is at most one entry longer than the old; each of its entries is either (r, c, v) or an entry of the old list; a nonzero v is stored as (r, c, v) |
| Entries.LookupEntry | dsa/sparse_matrix/code/src/sparse_matrix.cpp:21-27 | with distinct coordinates, every stored entry is the one found for its coordinate and getElement returns its value |
| Entries.ZeroIsAbsent | dsa/sparse_matrix/code/src/sparse_matrix.cpp:21-27 | in a store with no zeros, a coordinate reads 0 exactly when no entry is stored there, so a sum that cancels to 0 leaves no entry |
| SparseMatrices.SparseMatrix.SetElement | dsa/sparse_matrix/code/src/sparse_matrix.cpp:29-44 | the new list is the in-place update, erase, append or no change of the source; (r, c) then reads v and every other coordinate reads as before; the store invariant is preserved; a 0 on an absent coordinate leaves the list exactly as it was |
| Entries.AssignGet | dsa/sparse_matrix/code/src/sparse_matrix.cpp:29-44 | after setElement(r, c, v), getElement(r, c) is v and every other coordinate is unchanged |
| Entries.UpdateGet | dsa/sparse_matrix/code/src/sparse_matrix.cpp:36-37 | overwriting the found entry in place changes only the value read at (r, c) |
| Entries.EraseGet | dsa/sparse_matrix/code/src/sparse_matrix.cpp:38-39 | erasing the found entry makes (r, c) read 0 and leaves every other coordinate unchanged |
| Entries.EraseGetSame | dsa/sparse_matrix/code/src/sparse_matrix.cpp:38-39 | with distinct coordinates, no second entry at (r, c) survives the erase |
| Entries.EraseGetOther | dsa/sparse_matrix/code/src/sparse_matrix.cpp:38-39 | the erase shifts the later entries down by one without changing what other coordinates read |
| Entries.LookupSnoc | dsa/sparse_matrix/code/src/sparse_matrix.cpp:41-42 | after emplace_back of an entry at a new coordinate, that coordinate reads its value, it read 0 before, and the others are unchanged |
| Entries.AppendDistinct | dsa/sparse_matrix/code/src/sparse_matrix.cpp:41-42 | appending only when the coordinate is absent keeps coordinates distinct |
| Entries.AssignWellFormed | dsa/sparse_matrix/code/src/sparse_matrix.cpp:35-43 | setElement keeps the store invariant: no stored zeros, at most one entry per coordinate |
| Entries.AssignAppend | dsa/sparse_matrix/code/src/sparse_matrix.cpp:52-54 | applying an entry of a valid store to a copy of the entries before it appends it |
| Entries.PrefixWellFormed | dsa/sparse_matrix/code/src/sparse_matrix.cpp:52-54 | every prefix of a valid store is valid |
| SparseMatrices.SparseMatrix.Add | dsa/sparse_matrix/code/src/sparse_matrix.cpp:46-60 | fails with a dimension mismatch exactly when rows or cols differ; otherwise a new valid matrix of the same dimensions holding getElement of this plus getElement of other at every coordinate |
| SparseMatrices.SparseMatrix.Subtract | dsa/sparse_matrix/code/src/sparse_matrix.cpp:62-76 | as Add, with the difference at every coordinate |
| SparseMatrices.SparseMatrix.CopyInto | dsa/sparse_matrix/code/src/sparse_matrix.cpp:52-54 | the copy loop leaves the new matrix holding the very same entry list |
| SparseMatrices.SparseMatrix.FoldIn | dsa/sparse_matrix/code/src/sparse_matrix.cpp:55-58 | folding in the right operand's entries through get and set adds (or, for subtract, lines 71-74, subtracts) its value at every coordinate and keeps the invariant |
| SparseMatrices.CombineStep | dsa/sparse_matrix/code/src/sparse_matrix.cpp:55-58 | one iteration of that loop extends the sum (or difference) by one more right entry |
| SparseMatrices.PrefixStep | dsa/sparse_matrix/code/src/sparse_matrix.cpp:55 | reading one more entry of a valid store changes only that entry's coordinate, which read 0 before |
| SparseMatrices.SparseMatrix.Multiply | dsa/sparse_matrix/code/src/sparse_matrix.cpp:78-95 | fails exactly when cols differs from other.rows; otherwise a new valid rows x other.cols matrix whose (i, j) is the entry-pairing sum, which equals the sum over k below cols of A(i, k) B(k, j) whenever every column index of this matrix is below cols |
| SparseMatrices.SparseMatrix.AddRowProducts | dsa/sparse_matrix/code/src/sparse_matrix.cpp:86-92 | the inner loop adds v1 times other's value at (k, j) to every (i, j) of row i, and nothing elsewhere |
| SparseMatrices.PairStep | dsa/sparse_matrix/code/src/sparse_matrix.cpp:87-91 | one pairing adds v1 * v2 at (i, j) exactly when the right entry's row is k |
| SparseMatrices.ProductSumStep | dsa/sparse_matrix/code/src/sparse_matrix.cpp:84-93 | one more left entry adds its row's contribution to the pairing sum |
| Products.ProductSumIsDense | dsa/sparse_matrix/code/src/sparse_matrix.cpp:84-93 | with distinct coordinates and columns below n, the pairing sum equals the matrix product sum over k < n |
| Products.DenseProductGrow | dsa/sparse_matrix/code/src/sparse_matrix.cpp:84-93 | adding a new entry to the left operand adds exactly its term to the product sum |
| Products.DenseProductOfEmpty | dsa/sparse_matrix/code/src/sparse_matrix.cpp:83 | the product of an empty left operand is 0 everywhere |
| Products.ProductSum | dsa/sparse_matrix/code/src/sparse_matrix.cpp:84-93 | the pairing sum of a row i in which the left operand stores no entry is 0 |
| SparseMatrices.SparseMatrix.SaveToFile | dsa/sparse_matrix/code/src/sparse_matrix.cpp:103-108 | the lines written are the rows header, the cols header, then one entry line per entry in list order |
| TextFormat.Serialize | dsa/sparse_matrix/code/src/sparse_matrix.cpp:103-108 | exactly two header lines and one "(r, c, v)" line per entry, in order |
| TextFormat.EntryLines | dsa/sparse_matrix/code/src/sparse_matrix.cpp:106-108 | one line per entry, line k being entry k's line |
| TextFormat.EntryLinesStep | dsa/sparse_matrix/code/src/sparse_matrix.cpp:106-108 | writing one more entry appends its line |
| TextFormat.EntryLinesSnoc | dsa/sparse_matrix/code/src/sparse_matrix.cpp:106-108 | the lines of a list with one more entry are its lines plus that entry's line |
| TextFormat.EntryLine | dsa/sparse_matrix/code/src/sparse_matrix.cpp:107 | an entry line is wrapped in parentheses, so the loader reads it rather than skipping it |
| TextFormat.HeaderLine | dsa/sparse_matrix/code/src/sparse_matrix.cpp:103-104 | a header line starts with its key, and std::stoi reads back after the key the number written, when it fits in int |
| Numbers.NatToString | dsa/sparse_matrix/code/src/sparse_matrix.cpp:107 | operator<< writes a nonempty run of decimal digits |
| Numbers.IntToString | dsa/sparse_matrix/code/src/sparse_matrix.cpp:103-107 | operator<< on int writes a nonempty string that starts with a minus sign exactly when the number is negative, and is decimal digits otherwise |
| Numbers.DigitChar | dsa/sparse_matrix/code/src/sparse_matrix.cpp:107 | each written digit is a decimal digit character |
| Numbers.DigitRun | dsa/sparse_matrix/code/src/sparse_matrix.cpp:142 | std::stoi's digit run is the longest prefix of digits |
| Numbers.Stoi | dsa/sparse_matrix/code/src/sparse_matrix.cpp:142 | a number std::stoi accepts fits in int |
| Numbers.SignedDigits | dsa/sparse_matrix/code/src/sparse_matrix.cpp:142 | the signed value accepted fits in int |
| Numbers.DigitsValueOfNatToString | dsa/sparse_matrix/code/src/sparse_matrix.cpp:107 | the digits written for n denote n |
| Numbers.SkipSpacesPrefix | dsa/sparse_matrix/code/src/sparse_matrix.cpp:142 | std::stoi's white-space skip removes exactly the leading blanks |
| Numbers.DigitRunOfDigits | dsa/sparse_matrix/code/src/sparse_matrix.cpp:142 | an all-digit token is read whole |
| Numbers.SignedDigitsOfNatToString | dsa/sparse_matrix/code/src/sparse_matrix.cpp:142 | the digits of m, with or without a minus sign, read back as plus or minus m, or as out of range |
| Numbers.StoiOfIntToString | dsa/sparse_matrix/code/src/sparse_matrix.cpp:124 | std::stoi reads back what operator<< wrote after any blanks, and reports out of range for a number outside int |
| SparseMatrices.SparseMatrix.LoadFromFile | dsa/sparse_matrix/code/src/sparse_matrix.cpp:114-156 | fails exactly when the file is rejected, with the same error; otherwise a new valid matrix with the dimensions and entry list the loader builds |
| SparseMatrices.SparseMatrix.ReadTokens | dsa/sparse_matrix/code/src/sparse_matrix.cpp:140-146 | the token loop pushes std::stoi of each token in order and stops at the first token std::stoi rejects |
| TextFormat.Load | dsa/sparse_matrix/code/src/sparse_matrix.cpp:121-153 | a successful load had a rows= line then a cols= line, and its dimensions are what std::stoi reads after the prefixes |
| TextFormat.ParseTokens | dsa/sparse_matrix/code/src/sparse_matrix.cpp:140-146 | a successful token loop yields one integer per token after those already read |
| TextFormat.ParseTokensAccepts | dsa/sparse_matrix/code/src/sparse_matrix.cpp:140-146 | the token loop succeeds exactly when std::stoi accepts every token |
| TextFormat.ParseTokensPushes | dsa/sparse_matrix/code/src/sparse_matrix.cpp:140-146 | after a successful token loop, the value pushed for token k is what std::stoi reads from token k |
| TextFormat.ParseTokensFirstError | dsa/sparse_matrix/code/src/sparse_matrix.cpp:140-146 | a failed token loop carries the error std::stoi gives on the first token it rejects, every earlier token having been accepted |
| TextFormat.CommaIndex | dsa/sparse_matrix/code/src/sparse_matrix.cpp:140 | getline stops at the first comma, or at the end when there is none |
| TextFormat.SplitCommas | dsa/sparse_matrix/code/src/sparse_matrix.cpp:140 | no token holds a comma, and the split yields no token exactly when the text is empty |
| TextFormat.SplitCommasJoin | dsa/sparse_matrix/code/src/sparse_matrix.cpp:140 | joining the tokens with commas gives back the split text, short of a final comma that produced no token |
| TextFormat.SplitJoin | dsa/sparse_matrix/code/src/sparse_matrix.cpp:140 | the getline split undoes joining comma-free tokens with commas when the last token is not empty |
| TextFormat.SplitCons | dsa/sparse_matrix/code/src/sparse_matrix.cpp:140 | a comma-free piece before a comma is one token |
| TextFormat.SplitSingle | dsa/sparse_matrix/code/src/sparse_matrix.cpp:140 | a nonempty comma-free remainder is the last token |
| TextFormat.SplitEntryFields | dsa/sparse_matrix/code/src/sparse_matrix.cpp:136-140 | the text inside an entry line splits into its three fields |
| TextFormat.IntToStringCommaFree | dsa/sparse_matrix/code/src/sparse_matrix.cpp:107 | a written number is nonempty and holds no comma |
| TextFormat.ParseEntryFields | dsa/sparse_matrix/code/src/sparse_matrix.cpp:140-146 | the three fields read back as the entry's row, column and value |
| TextFormat.ParseEntryLine | dsa/sparse_matrix/code/src/sparse_matrix.cpp:132-152 | the loader reads back the entry line saveToFile writes for an entry whose numbers fit in int |
| TextFormat.SkipUnwrapped | dsa/sparse_matrix/code/src/sparse_matrix.cpp:132-133 | an empty or unwrapped body line is passed over |
| TextFormat.ParseBodyLine | dsa/sparse_matrix/code/src/sparse_matrix.cpp:131-152 | a body line is skipped exactly when it is not wrapped in parentheses; a parsed entry's row, column and value are what std::stoi reads from the three comma-separated tokens inside |
| TextFormat.BodyLineRejected | dsa/sparse_matrix/code/src/sparse_matrix.cpp:132-150 | a body line is refused exactly when it is wrapped and its inside does not split into three tokens that std::stoi all accepts |
| TextFormat.RejectWrapped | dsa/sparse_matrix/code/src/sparse_matrix.cpp:143-149 | a wrapped line whose inside is not exactly three integers makes the load fail, whatever lines follow |
| TextFormat.LoadBody | dsa/sparse_matrix/code/src/sparse_matrix.cpp:131-153 | a successful body loop stores at most one entry per line; a failure carries the error of a refused line of the body |
| TextFormat.LoadBodyAccepts | dsa/sparse_matrix/code/src/sparse_matrix.cpp:131-153 | the body loop succeeds exactly when no body line is refused |
| TextFormat.LoadAccepts | dsa/sparse_matrix/code/src/sparse_matrix.cpp:121-153 | a file loads exactly when it opens with a rows= line and a cols= line whose numbers std::stoi accepts and no later line is refused |
| TextFormat.ZeroLineStoresNothing | dsa/sparse_matrix/code/src/sparse_matrix.cpp:152 | an entry line with value 0 leaves its coordinate reading 0, and stores nothing when the coordinate was absent |
| TextFormat.LoadBodyWellFormed | dsa/sparse_matrix/code/src/sparse_matrix.cpp:131-153 | the body loop keeps the store invariant |
| TextFormat.LoadWellFormed | dsa/sparse_matrix/code/src/sparse_matrix.cpp:121-153 | every loaded matrix satisfies the store invariant |
| TextFormat.LoadBodyOfEntryLines | dsa/sparse_matrix/code/src/sparse_matrix.cpp:131-153 | loading the entry lines of a valid list appends every entry, in order |
| TextFormat.RoundTrip | dsa/sparse_matrix/code/src/sparse_matrix.cpp:103-153 | loading what saveToFile wrote gives back the same rows, cols and entry list, hence the same getElement everywhere, when every number fits in int |
| Scenarios.StoiSkipsBlankAndJunk | dsa/sparse_matrix/code/src/sparse_matrix.cpp:142 | std::stoi reads " 3abc" as 3 |
| Scenarios.StoiReadsSignedPrefix | dsa/sparse_matrix/code/src/sparse_matrix.cpp:142 | std::stoi reads "\t-12)" as -12 |
| Scenarios.StoiRejects | dsa/sparse_matrix/code/src/sparse_matrix.cpp:142-145 | std::stoi rejects " x" and "-" as invalid_argument, which the loader reports as a malformed file |
| Scenarios.MissingColsLine | dsa/sparse_matrix/code/src/sparse_matrix.cpp:121-128 | an empty file, a file without a cols line, a misnamed cols line or swapped headers fail as malformed |
| Scenarios.TwoFieldLine | dsa/sparse_matrix/code/src/sparse_matrix.cpp:148-149 | the body line "(1, 2)" is refused as malformed |
| Scenarios.TwoFieldFile | dsa/sparse_matrix/code/src/sparse_matrix.cpp:121-153 | the file rows=2, cols=2, (1, 2) fails to load as malformed |
| Scenarios.ExampleLookups | dsa/sparse_matrix/code/src/sparse_matrix.cpp:21-27 | getElement on the example matrices |
| Scenarios.ExampleProductSums | dsa/sparse_matrix/code/src/sparse_matrix.cpp:84-93 | the entry pairing on the example gives 3, 4, 0, 0 |
| Scenarios.AddAndMultiplyExample | dsa/sparse_matrix/code/src/sparse_matrix.cpp:46-95 | built through setElement, A + B reads 4, 4, 0, 2 and A B reads 3, 4, 0, 0 at (0,0), (0,1), (1,0), (1,1) |

## Left out

- `main` (lines 159-200) is not modelled: console prompts, `std::cin`, the fixed `result.txt` path, the operation selector and the top-level catch with its exit codes are I/O glue.
- Opening and closing files is not modelled (lines 98-101, 110, 115-118, 155), and neither is the "Unable to open" `std::runtime_error`. A file is modelled as its sequence of lines. `SaveToFile` returns the lines, and `LoadFromFile` takes them.
- How `std::getline` cuts a file into lines is not modelled: newline characters, a final line without a newline, and carriage returns.
- The constructor from a file path (lines 15-17) becomes the static method `LoadFromFile`. It returns a fresh matrix or the error the constructor would throw.
- Returning a `SparseMatrix` by value becomes returning a freshly allocated object.
- SparseMatrices.SparseMatrix.Add: values are mathematical integers. The source's 32-bit `int` overflow in `+` (line 57) is undefined behaviour in C++ and is not modelled.
- SparseMatrices.SparseMatrix.Subtract: same for `-` (line 73).
- SparseMatrices.SparseMatrix.Multiply: same for `val1 * val2` and the accumulation (line 90). Its equality with the textbook product also needs every column index of the left operand to lie in `[0, cols)`. The source never checks coordinates against the dimensions, so the model claims no such range invariant. Without it, the result is still stated exactly through the entry pairing.
- TextFormat.RoundTrip: stated for rows, cols and entries within `int`. Those are the only values the source can hold.
- Numbers.Stoi: models `std::stoi` in base 10 under the C locale. It skips `isspace` characters, takes an optional sign and the longest digit run, and ignores the rest. Locale-dependent white space is not modelled.
- TextFormat.ParseTokens: its own contract states only the length and the prefix of the result. What the loop means is proved beside it: `TextFormat.ParseTokensAccepts` (success exactly when std::stoi accepts every token), `TextFormat.ParseTokensPushes` (the value pushed for each token) and `TextFormat.ParseTokensFirstError` (the error of the first rejected token). `SparseMatrices.SparseMatrix.ReadTokens` is the loop itself, proved equal to it.
