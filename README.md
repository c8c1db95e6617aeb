# Arrays of variables of an XCSP3 instance

This project models the `XVariables.Array` class of the XCSP3 parser of the
Choco solver front-end. The class holds a multi-dimensional array of variables
such as `x[3][4]`. Its variables live in one flat, row-major buffer `vars` of
`product(size)` slots. A domain declaration (`<domain for="x[0..1][] x[2][3]">`)
fills the cells that its compact forms address. The keyword `others` fills
every cell that is still empty. A lookup returns the cells that a compact form
addresses, in odometer order.

The model also covers the classification predicates of `TypeVar` and the
naming of a cell variable, `idArray[i0][i1]...`.

Module by module:

- `Ranges` holds the range of one dimension of a compact form:
  `Singleton(v) | Interval(inf, sup)`, with `Smallest` and the number of
  indexes the enumeration visits.
- `RowMajor` holds the row-major offset `Flat` (a Horner evaluation), its
  inverse `Decode` and the full-extent odometer `Tick`. It proves that
  addressing is a bijection between in-bounds index vectors and
  `[0, Product(size))`.
- `Odometer` holds the range odometer `Next` (the step of `incrementIndexes`)
  and `Enumerate`, the list of vectors of a Cartesian product in odometer order.
  It proves that the do/while loop, started at the smallest vector, walks
  `Enumerate` exactly and stops when the carry passes the first dimension.
- `CompactForm` holds the bracket groups after the first `[` and the range of
  each dimension (an empty group is the whole extent).
- `Assignment` holds what `buildVarsWith`, `setDom` and `getVarsFor` do to the
  buffer's contents, stated as functions on a sequence of slots. It proves the
  invariants: a cell is never written twice, `others` leaves no cell empty,
  and a failure touches only cells that were empty and addressed.
- `XVariables` holds the `Array` class itself. The class has an `array` of
  slots, and its methods update it in place with the loops of the Java code.
  Each method is proved against the functions above.
- `Entries` holds `TypeVar`, `Var` and cell names. `Text` holds the Java
  string operations the class relies on: `indexOf`, `trim`, splitting on `\s+`,
  decimal printing of an `int`, and joining with `"]["`.
- `SeqFacts` and `Arith` hold small facts about sequences and integer
  arithmetic that the proofs use.

A Java exception or a failed `XUtility.control` becomes an `Error` outcome:
`MalformedCompactForm`, `IdMismatch`, `TwoDomainDefinitions` or
`IndexOutOfBounds`. Writes made before a failure stay in the buffer, as they do
in Java. `IntegerEntity.parse` lives in a file that is not part of this model;
it is a function parameter `parse`. `Dom` is a type parameter.

The code checks only the flat offset, not each coordinate. A compact form
whose coordinates leave their dimension but whose offset stays inside the
buffer therefore addresses another cell. For example, `x[0][5]` on a `[2][3]`
array addresses `x[1][2]`. The model follows the code. `VarsForWithin` and
`NoDoubleAssignment` state their guarantees for ranges that lie inside their
dimensions.

## Model

| member | source | states |
|---|---|---|
| Entries.Classification | src/main/java/org/chocosolver/parser/xcsp/tools/XVariables.java:36-61 | Every kind of variable is exactly one of basic, complex and qualitative. Stochastic kinds are basic, and no kind is both a set and a graph. |
| Entries.CellNameInjective | src/main/java/org/chocosolver/parser/xcsp/tools/XVariables.java:117-119 | Two cells of one array get the same identifier `id[i0][i1]...` only when their index vectors are equal, negative indexes included. |
| Text.DecimalRoundTrip | src/main/java/org/chocosolver/parser/xcsp/tools/XVariables.java:118 | Reading back the decimal form of an index, with its minus sign, gives the index. |
| Text.UnjoinJoin | src/main/java/org/chocosolver/parser/xcsp/tools/XVariables.java:118 | Parts without `]` that are joined with `"]["` are recovered by splitting at each `"]["`. |
| Text.IndexOfFirst | src/main/java/org/chocosolver/parser/xcsp/tools/XVariables.java:212 | `indexOf` is -1 exactly when the character is absent; otherwise it is the first position of the character. |
| Text.Split | src/main/java/org/chocosolver/parser/xcsp/tools/XVariables.java:244 | Splitting on runs of white space gives tokens without white space, only the first of which can be empty. A string without white space is its own single token. |
| Text.SplitSpaced | src/main/java/org/chocosolver/parser/xcsp/tools/XVariables.java:244 | Words joined by runs of white space, a possibly different run at each gap, and followed by an optional trailing run, split back into exactly those words, in order. Only the first word may be empty, which is what a leading run produces. When the last word is non-empty, the trailing run adds no token. |
| Text.Trim | src/main/java/org/chocosolver/parser/xcsp/tools/XVariables.java:241 | `trim` returns a contiguous middle part of the string. Everything dropped before and after it is a character up to U+0020, and the result neither starts nor ends with such a character. |
| CompactForm.CellNameRanges | src/main/java/org/chocosolver/parser/xcsp/tools/XVariables.java:117-119 | The compact form of a cell's own name reads back as one singleton range per dimension, holding that cell's indexes, when `parse` reads decimal forms. |
| RowMajor.ProductPositive | src/main/java/org/chocosolver/parser/xcsp/tools/XVariables.java:148 | The product of positive sizes, folded from 1, is positive; an empty size list gives one slot. |
| RowMajor.FlatInRange | src/main/java/org/chocosolver/parser/xcsp/tools/XVariables.java:191-198 | The row-major offset of an in-bounds index vector lies in `[0, product(size))`. |
| RowMajor.FlatInjective | src/main/java/org/chocosolver/parser/xcsp/tools/XVariables.java:191-198 | Distinct in-bounds index vectors have distinct row-major offsets. |
| RowMajor.FlatOfDecode | src/main/java/org/chocosolver/parser/xcsp/tools/XVariables.java:175-186 | Every offset in `[0, product(size))` decodes to an in-bounds vector whose offset is that offset: addressing is onto. |
| RowMajor.DecodeOfFlat | src/main/java/org/chocosolver/parser/xcsp/tools/XVariables.java:175-198 | Decoding the offset of an in-bounds vector gives the vector back. |
| RowMajor.TickSucc | src/main/java/org/chocosolver/parser/xcsp/tools/XVariables.java:159-163 | The full-extent odometer step takes an in-bounds vector with offset o, where o+1 is still in the buffer, to the in-bounds vector with offset o+1. |
| Odometer.NextWraps | src/main/java/org/chocosolver/parser/xcsp/tools/XVariables.java:225-235 | When every dimension is a singleton or at its upper bound, the step returns false and every interval dimension is back at its lower bound, with singletons unchanged. |
| Odometer.NextBumps | src/main/java/org/chocosolver/parser/xcsp/tools/XVariables.java:225-235 | Otherwise the rightmost interval dimension with room moves up by one and the step returns true. Dimensions to its left are unchanged. Interval dimensions to its right go back to their lower bounds, and singletons keep their values. |
| Odometer.EnumerateWalk | src/main/java/org/chocosolver/parser/xcsp/tools/XVariables.java:247-252 | The odometer-order list starts at the smallest vector, and each element steps to the next. The step after the last returns false. |
| Odometer.EnumerateStep | src/main/java/org/chocosolver/parser/xcsp/tools/XVariables.java:248-252 | The step from the c-th vector returns true exactly when a (c+1)-th exists, and then yields it. |
| Odometer.EnumerateMembers | src/main/java/org/chocosolver/parser/xcsp/tools/XVariables.java:247-252 | A vector is in the enumeration exactly when each coordinate lies in its dimension's range. |
| Odometer.EnumerateCount | src/main/java/org/chocosolver/parser/xcsp/tools/XVariables.java:247-252 | The enumeration has the product of the range widths as its length and holds no vector twice. |
| Odometer.OdometerOrderExample | src/main/java/org/chocosolver/parser/xcsp/tools/XVariables.java:225-235 | Over `[0..1][0..2]` the order is `00 01 02 10 11 12`: the last dimension moves fastest. |
| CompactForm.RangeFor | src/main/java/org/chocosolver/parser/xcsp/tools/XVariables.java:216 | An empty group covers exactly the indexes `0 .. size-1` of its dimension; any other group is the parsed token. |
| CompactForm.ReadIndexRanges | src/main/java/org/chocosolver/parser/xcsp/tools/XVariables.java:210-220 | Reading one `]`-terminated group per dimension from the first `[` gives the same result as splitting the groups first and mapping each one to its range. |
| CompactForm.GroupsRender | src/main/java/org/chocosolver/parser/xcsp/tools/XVariables.java:212-217 | Groups written out as `[g0][g1]...` are read back unchanged, whatever follows them. |
| Assignment.Fill | src/main/java/org/chocosolver/parser/xcsp/tools/XVariables.java:154-165 | After the fill, no slot is empty and slots that held a variable keep it. Every slot that was empty holds a variable with the given domain. |
| Assignment.FillNames | src/main/java/org/chocosolver/parser/xcsp/tools/XVariables.java:156-158 | A slot written by the fill holds the variable named after the one in-bounds index vector whose offset is that slot. |
| Assignment.WriteCellsSucceeds | src/main/java/org/chocosolver/parser/xcsp/tools/XVariables.java:248-252 | Writing a token's cells succeeds exactly when every offset is in the buffer, its slot is empty, and no two cells share an offset. |
| Assignment.WriteCellsWritten | src/main/java/org/chocosolver/parser/xcsp/tools/XVariables.java:249-251 | After a successful write, each addressed cell's slot holds the variable named after that cell's indexes. |
| Assignment.WriteCellsFailures | src/main/java/org/chocosolver/parser/xcsp/tools/XVariables.java:249-250 | A write fails only with an offset outside the buffer or a second domain definition. The first cannot happen when every offset is inside the buffer. |
| Assignment.WriteCellsFrame | src/main/java/org/chocosolver/parser/xcsp/tools/XVariables.java:248-252 | A write never changes a slot that already held a variable, nor a slot that no cell addresses, success or failure. |
| Assignment.ApplyTokenFrame | src/main/java/org/chocosolver/parser/xcsp/tools/XVariables.java:245-252 | One token changes only slots that were empty and that it addresses. |
| Assignment.ApplyTokensFrame | src/main/java/org/chocosolver/parser/xcsp/tools/XVariables.java:244-253 | A list of tokens changes only slots that were empty and that some token addresses. |
| Assignment.NoDoubleAssignment | src/main/java/org/chocosolver/parser/xcsp/tools/XVariables.java:250 | A cell that one successful token has set makes any later well-formed token of this array that addresses it fail with a second domain definition. |
| Assignment.CellWrittenOnce | src/main/java/org/chocosolver/parser/xcsp/tools/XVariables.java:245-252 | Whatever its identifier and its ranges, a token that addresses a cell already written by an earlier successful token fails. |
| Assignment.SetDomKeepsVariables | src/main/java/org/chocosolver/parser/xcsp/tools/XVariables.java:240-254 | Domain assignment never replaces a variable, with `others` or with explicit tokens, success or failure. |
| Assignment.OthersCompletes | src/main/java/org/chocosolver/parser/xcsp/tools/XVariables.java:241-242 | A `for` value that trims to `others` always succeeds and leaves no slot empty. |
| Assignment.EnumerateInBounds | src/main/java/org/chocosolver/parser/xcsp/tools/XVariables.java:247-252 | Ranges that lie inside their dimensions address only in-bounds cells. |
| Assignment.VarsForWithin | src/main/java/org/chocosolver/parser/xcsp/tools/XVariables.java:259-267 | For ranges inside their dimensions, the lookup succeeds and returns one slot per vector of the Cartesian product. The addressed offsets are pairwise distinct. |
| XVariables.Array.constructor | src/main/java/org/chocosolver/parser/xcsp/tools/XVariables.java:145-149 | A new array has one slot per cell, `product(size)` in all (1 for no dimension), and every slot is empty. |
| XVariables.Array.WithDom | src/main/java/org/chocosolver/parser/xcsp/tools/XVariables.java:170-173 | The four-argument constructor gives every cell a variable with the domain: its buffer is the fill of an empty buffer. |
| XVariables.Array.BuildVarsWith | src/main/java/org/chocosolver/parser/xcsp/tools/XVariables.java:154-165 | The loop leaves the buffer equal to `Fill` of the old buffer. The odometer it carries alongside keeps the index vector of the current offset. |
| XVariables.Array.TickIndexes | src/main/java/org/chocosolver/parser/xcsp/tools/XVariables.java:159-163 | The inner loop of the fill does one full-extent odometer step in place, and `RowMajor.TickSucc` shows that step is +1 on the offset. |
| XVariables.Array.IndexesForAsWritten | src/main/java/org/chocosolver/parser/xcsp/tools/XVariables.java:178-186 | As written, rank 1 returns `[flatIndex]`, and every other rank ends in an index out of bounds. |
| XVariables.Array.IndexesFor | src/main/java/org/chocosolver/parser/xcsp/tools/XVariables.java:178-186 | With the loop counting down, the result is `Decode(size, flatIndex)`. For an offset inside the buffer it is the in-bounds vector whose offset is `flatIndex`. |
| XVariables.Array.FlatIndexFor | src/main/java/org/chocosolver/parser/xcsp/tools/XVariables.java:191-198 | The accumulator loop computes the row-major offset: stride 1 for the last index, and each earlier stride is the product of the later sizes. |
| XVariables.Array.VarAt | src/main/java/org/chocosolver/parser/xcsp/tools/XVariables.java:203-205 | Returns the slot at the row-major offset, or an index-out-of-bounds failure when the offset is outside the buffer or there are too many indexes. An in-bounds vector always succeeds. |
| XVariables.Array.BuildIndexRanges | src/main/java/org/chocosolver/parser/xcsp/tools/XVariables.java:210-220 | The loop over the dimensions yields `IndexRanges`: one range per dimension, in order. It fails when the form has no `[` or too few groups. |
| XVariables.Array.IncrementIndexes | src/main/java/org/chocosolver/parser/xcsp/tools/XVariables.java:225-235 | The in-place step equals the odometer `Next`, both the returned flag and the new vector. |
| XVariables.Array.SetDom | src/main/java/org/chocosolver/parser/xcsp/tools/XVariables.java:240-254 | The new buffer and the outcome equal `SetDomOutcome`: `others` gives the fill, anything else applies the tokens in order. Each token must name the array and stops at its first failure. |
| XVariables.Array.AssignCells | src/main/java/org/chocosolver/parser/xcsp/tools/XVariables.java:246-252 | The do/while loop writes the token's cells in odometer order; its result equals `WriteCells` over `Enumerate(ranges)`. |
| XVariables.Array.GetVarsFor | src/main/java/org/chocosolver/parser/xcsp/tools/XVariables.java:259-267 | Returns the slots of the addressed cells in odometer order, or a failure for a malformed form or an offset outside the buffer. |

## Left out

- `IntegerEntity.parse`, `IntegerInterval` and `XUtility`: XValues.java and XUtility.java are not part of this model. Parsing is the parameter `parse`, which never fails. `XUtility.join` of indexes is `Text.Join` of their decimal forms.
- A `parse` that throws on a malformed token is not modelled, because it is a total parameter.
- `Dom` contents, `Var.degree` (set after all constraints are parsed) and the `toString` methods are not modelled.
- Java `int` arithmetic is unbounded here: overflow of `product(size)`, of offsets and of the `(int)` casts of `long` bounds is not modelled.
- XVariables.Array.constructor: sizes must be positive (XCSP3 array sizes). Other sizes are not modelled. A zero size gives an empty buffer. With negative sizes, Java throws only when the product is negative. When the product is positive, as for `[-2, -3]`, Java allocates a buffer whose cells the model does not describe.
- XVariables.Array.IndexesFor, XVariables.Array.IndexesForAsWritten: flat offsets are natural numbers, while Java takes any `int`. As written with rank 1, Java returns `[flatIndex]` for a negative offset too. A decode of a negative offset would follow Java's truncating `%` and `/`, not Dafny's Euclidean ones. Negative offsets are not modelled because no cell has one.
- XVariables.Array.FlatIndexFor: takes at most as many indexes as dimensions. With more, Java reads past `size` and throws; that case is modelled in `VarAt` as a failure.
- The inner loops of `buildVarsWith` and of the do/while in `setDom` are the separate methods `TickIndexes` and `AssignCells`, so that each loop has its own contract.
- An interval with `inf == sup` is handled as an interval: its coordinate moves past `sup`, goes back to `inf` and carries. That is the same vector and carry as skipping a singleton.
- Assignment.NoDoubleAssignment, Assignment.VarsForWithin: stated for ranges whose indexes lie inside their dimensions, because the code checks only the flat offset. Assignment.CellWrittenOnce states without that condition that such a token fails, without naming the error.
- XVariables.Array.IndexesFor: rank 0 returns the empty vector. This is the smallest correction of a case that, as written, throws.

## Findings

| source | as written | input that shows it | evidently intended | confidence | as-written member | corrected member |
|---|---|---|---|---|---|---|
| src/main/java/org/chocosolver/parser/xcsp/tools/XVariables.java:180 | `indexesFor` moves its loop counter up (`i++`) from the last dimension. From rank 2 on, it writes past the end of `t`, so only rank 1 gets its index vector. | size `[2, 3]`, flatIndex `4`: `t[2]` is out of bounds on the second pass. | Counting down (`i--`), which gives `[1, 1]`, the inverse of `flatIndexFor`. | not executed | XVariables.Array.IndexesForAsWritten | XVariables.Array.IndexesFor |
