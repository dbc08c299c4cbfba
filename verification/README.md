# matprod in Dafny

A model of matprod's operand-collecting matrix product. Writing `a * b * c * ...`
does not multiply anything straight away. It builds a `MatrixProduct` that collects
the operands. When a `Matrix` is constructed from that product, the chain is finalized:

- an empty chain fails;
- a single matrix is handed back unchanged;
- a chain whose adjacent dimensions disagree fails;
- any other chain is planned with the matrix-chain-order dynamic program of Cormen,
  Leiserson and Rivest. The chain is then multiplied along the planned parenthesization,
  and every scalar multiplication is counted.

The resulting handle records two figures: the count actually spent (the optimized
cost) and a "naive" comparison figure.

The model has four modules:

- `Matrices` (`matrices.dfy`): the matrix handle as a value.
  - `Storage` stands for the shared `MatrixPriv`: name, shape and elements.
  - `Matrix` holds the handle's fields: whether it has storage, `ok`, and the two costs.
  - The module also has the constructors, element access, renaming, and the triple-loop
    `Mult`. `Mult` is proved against the `Product` function.
- `ChainOrder` (`chain_order.dfy`): the chain-order tables.
  - Parenthesizations are modelled as `Tree`s and their costs as `Cost`.
  - `Opt`/`Best`/`Split` are a recursive specification that follows the planner's scan.
  - The imperative `ChainOrderTables` fills two `array2` tables and is proved to
    produce exactly `Opt` and `Split`.
  - Lemmas show that `Opt` is the minimum over all parenthesizations and that `Split`
    is the lowest split attaining it.
- `MatrixChain` (`matrix_product.dfy`):
  - the `MatrixProduct` class: its operand list, its multiplication counter,
    `calculate`, `makeChainOrder` and the naive cost;
  - the recursive executor `MatrixChainMultiply`;
  - `MatrixFromProduct`, the `Matrix(const MatrixProduct&)` constructor.

  The executor is proved to compute `Eval` of the tree the split table encodes. It is
  also proved to spend exactly that tree's `Cost`, so a finalized chain costs `Opt`.
  Matrix multiplication is proved associative on the cells. So every parenthesization,
  the planned one included, yields the cells of the serial left-to-right product. Only
  the result's name and the multiplication count depend on the grouping.
- `Examples` (`examples.dfy`): the two chains of the demonstration program, with their
  results derived from the model. These are the shape, the name, the naive figure and
  the optimized figure.
  - The textbook chain 30x35, 35x15, 15x5, 5x10, 10x20, 20x25 gives
    `((A*(B*C))*((D*E)*F))`, naive 25125, optimized 15125.
  - The 4x4 transform pipeline gives `(TB*(RZ*(TO*A)))`, naive 144, optimized 48.
    Here the planner breaks a tie at A_1..A_3 in favour of the first split.

Modelling choices:

- **Elements and unset cells.** Elements are `int`, and cells that the source leaves
  uninitialised are 0.
- **Sharing.** Copying a handle copies the value. Reference-counted sharing is not
  modelled.
- **The counter.** The counter is a `nat` field of the `MatrixProduct` class. The
  executor takes it in and hands it back, the way `mult` adds to its `size_t&`
  argument.
- **`calculate`'s result.** It returns a `Result`: either the matrix, or `EmptyChain`,
  or `DimensionMismatch(k)` naming the first pair that does not fit. This replaces
  the source's boolean and out-parameter.

## Model

| member | source | states |
|---|---|---|
| Matrices.EmptyMatrix | matrix.cpp:95-100 | the default handle has empty 0 x 0 storage named "empty" and is not ok |
| Matrices.NewMatrix | matrix.cpp:35-53 | a new handle is ok and carries its name; its shape is m x n when both extents are positive and 0 x 0 otherwise |
| Matrices.Matrix.SetAt | matrix.cpp:156-160 | writing cell (i, j) through the row accessor changes that cell only; shape, name and status are kept |
| Matrices.Matrix.SetName | matrix.cpp:140-144 | renaming changes the name of a handle that has storage and keeps its shape, cells, status, storage flag and costs; a handle without storage is unchanged |
| Matrices.Product | matrix.cpp:174-197 | the product of two multipliable valid matrices is a valid matrix |
| Matrices.ProductNamed | matrix.cpp:176-177 | the product of matrices named x and y is named "(x*y)"; an unfolding step of `Product` used by `EvalLabel` |
| Matrices.ProductShape | matrix.cpp:176 | the product of conformable operands is rows(a) x cols(b) |
| Matrices.Mult | matrix.cpp:174-197 | the triple loop yields the product: named "(a*b)", rows(a) x cols(b) when both are positive and 0 x 0 otherwise, each cell the dot product of a row of a with a column of b; the counter grows by rows(a) * cols(b) * cols(a) |
| Matrices.ProductCongruent | matrix.cpp:183-193 | the cells of a product depend only on the shapes and cells of its operands, not on their names |
| Matrices.ProductAssociative | matrix.cpp:183-193 | for conformable a, b, c, the products (a b) c and a (b c) have the same shape and the same cells |
| Matrices.Regroup | matrix.cpp:183-193 | if x y has the cells of w, then x (y z) has the cells of w z |
| ChainOrder.BestIsFirstMinimum | matrix.cpp:339-347 | the scan over k ends at a candidate no larger than any other, and at the lowest k among the cheapest, because only a strictly cheaper candidate replaces the choice |
| ChainOrder.OptRecurrence | matrix.cpp:334-349 | m[i][j] is the least candidate m[i][k] + m[k+1][j] + d[i-1] d[k] d[j] over i <= k < j, and s[i][j] is the lowest k attaining it |
| ChainOrder.OptIsLowerBound | matrix.cpp:329-331 | no parenthesization of A_i..A_j costs less than m[i][j] |
| ChainOrder.OptTree | matrix.cpp:362-373 | the tree read off the split table parenthesizes exactly A_i..A_j |
| ChainOrder.OptTreeAttains | matrix.cpp:329-349 | the split table's parenthesization costs exactly m[i][j] |
| ChainOrder.OptIsMinimum | matrix.cpp:329-349 | m[i][j] is the minimum cost over all parenthesizations, and some parenthesization attains it |
| ChainOrder.SerialCostSteps | matrix.h:98 | serial left-to-right evaluation costs d[0] d[k] d[k+1] summed over its steps |
| ChainOrder.OptimumAtMostSerialCost | matrix.h:98-99 | the optimized count never exceeds the cost of serial left-to-right evaluation |
| ChainOrder.ChainOrderTables | matrix.cpp:329-350 | after the loops, every cost entry with 1 <= i <= j <= n is m[i][j] = Opt and every split entry with i < j is Split |
| MatrixChain.DimsShape | matrix.cpp:325-327 | in a conformable chain, A_k is dims[k-1] x dims[k] |
| MatrixChain.Eval | matrix.cpp:362-373 | evaluating A_i..A_j along any parenthesization gives a valid rows(A_i) x cols(A_j) matrix |
| MatrixChain.EvalLabel | matrix.cpp:176-177 | the name of an evaluated chain is its full parenthesization of the operand names |
| MatrixChain.EvalNode | matrix.cpp:364-369 | a split sub-chain evaluates to the product of its two sides; an unfolding step of `Eval` used by `EvalLabel`, `ChainStep` and `EvalAnyOrder` |
| MatrixChain.SerialProduct | matrix.h:98 | the product of A_i..A_j formed strictly left to right is a valid rows(A_i) x cols(A_j) matrix |
| MatrixChain.SerialIsLeftToRight | matrix.h:98 | evaluating the left-to-right parenthesization gives exactly the serial product |
| MatrixChain.JoinSerial | matrix.cpp:366-368 | multiplying the serial products of A_i..A_k and A_(k+1)..A_j gives the cells of the serial product of A_i..A_j |
| MatrixChain.EvalAnyOrder | matrix.cpp:362-373 | evaluating A_i..A_j along any parenthesization, the planned one included, gives the shape and cells of the serial product, so reordering never changes the result's elements |
| MatrixChain.GroupingIrrelevant | matrix.cpp:317-373 | any two parenthesizations of A_i..A_j give matrices with the same shape and the same cells; only the name and the multiplication count depend on the grouping |
| MatrixChain.ChainStep | matrix.cpp:366-369 | once both sides are formed, their product is the sub-chain's value, and its count is the node's term d[i-1] d[k] d[j] |
| MatrixChain.PlannedTableEncodes | matrix.cpp:355 | a split table filled by the planner encodes the optimal tree |
| MatrixChain.MatrixChainMultiply | matrix.cpp:362-373 | the recursive executor returns the chain evaluated along the tree the split table encodes, shaped rows(A_i) x cols(A_j), and adds exactly that tree's cost to the counter |
| MatrixChain.MatrixProduct.constructor | matrix.cpp:249-255 | a new product holds exactly [m1, m2] with the counter at 0 |
| MatrixChain.MatrixProduct.Times | matrix.cpp:257-261 | operator* appends one operand and returns the same product; the counter is untouched |
| MatrixChain.MatrixProduct.GetNaiveCost | matrix.cpp:232-242 | the figure is the sum over adjacent pairs of rows(k) * cols(k) * cols(k+1), and 0 for a single matrix |
| MatrixChain.MatrixProduct.Calculate | matrix.cpp:201-226 | succeeds exactly for a non-empty conformable chain, and then the result is valid. An empty chain gives EmptyChain. A single matrix is returned as is, with the counter untouched. A non-empty chain that does not conform gives DimensionMismatch naming the first bad pair. Every failure leaves the counter untouched. A longer chain yields the optimal tree's product: shape rows(A_1) x cols(A_n), the name given by the split table, counter = m[1][n] |
| MatrixChain.MatrixProduct.MakeChainOrder | matrix.cpp:317-360 | builds the dims vector, plans, and multiplies: the optimal tree's product, with m[1][n] added to the counter |
| MatrixChain.MatrixFromProduct | matrix.cpp:80-93 | the handle is ok exactly when the chain finalizes, is always valid, and has storage exactly when it is ok. On failure it has no storage, is 0 x 0, is named "BAD" and carries zero costs, and the product's counter is unchanged. On success it shares the result's storage and records the naive figure and the counter. For a longer chain the counter is m[1][n], left in the product as well; for a single matrix it is the old counter |
| Examples.TextbookChain | test.cpp:34-39 | the six textbook matrices are valid, conformable and named A-F, with dims <30,35,15,5,10,20,25> |
| Examples.TextbookTables | test.cpp:43 | for the textbook chain, m[1][6] = 15125 and the splits are s[1][6] = 3, s[1][3] = 1, s[2][3] = 2, s[4][6] = 5, s[4][5] = 4 |
| Examples.TextbookTree | test.cpp:43 | the textbook chain is planned as (A(BC))((DE)F) |
| Examples.TextbookName | test.cpp:47 | that plan names the result "((A*(B*C))*((D*E)*F))" |
| Examples.TextbookSpelling | test.cpp:47 | the nested "(x*y)" names spell "((A*(B*C))*((D*E)*F))" |
| Examples.TextbookNaiveCost | test.cpp:48 | the naive figure for the textbook chain is 25125 |
| Examples.ExampleChain | test.cpp:32-51 | a * b * c * d * e * f gives an ok 30 x 25 matrix named "((A*(B*C))*((D*E)*F))", naive 25125, optimized 15125 |
| Examples.TransformChain | test.cpp:55-58 | TB, RZ, TO (4 x 4) and A (4 x 1) are valid and conformable, with dims <4,4,4,4,1> |
| Examples.TransformTables | test.cpp:62 | m[1][4] = 48 with splits 1, 2, 3 down the chain; A_1..A_3 ties at 128 between k = 1 and k = 2, and the planner keeps 1 |
| Examples.TransformTree | test.cpp:62 | the transform chain is planned as TB(RZ(TO A)) |
| Examples.TransformName | test.cpp:66 | that plan names the result "(TB*(RZ*(TO*A)))" |
| Examples.TransformNaiveCost | test.cpp:67 | the naive figure for the transform chain is 144 |
| Examples.Matrix4x4Comparison | test.cpp:53-69 | tb * rz * to * pt_in gives an ok 4 x 1 matrix named "(TB*(RZ*(TO*A)))", naive 144, optimized 48 |
| Examples.SkewedChain | matrix.cpp:232-242 | the chain 100x1, 1x1, 1x100 is valid and conformable, with dims <100,1,1,100> |
| Examples.NaiveCostUnderstates | matrix.cpp:239 | on that chain the naive figure is 200, serial evaluation costs 10100, and every parenthesization costs more than the naive figure |

## Left out

- Reference counting (`addRef`/`release`, the destructors) is not modelled, nor are the
  copy constructor and `operator=` (matrix.cpp:55-76, 114-128, 162-172). Handles are
  values, so a copy never aliases the original's storage, and a write through one
  handle is not seen through another.
- `alloc2DInt`/`free2DInt` and the freeing of the tables are not modelled. The tables
  are `array2`s created zero-filled.
- `printMatrix` and the printing in the demonstration program are I/O and are left out.
- Elements are `int`, not `float`, so rounding in the dot product is not modelled.
  Values the source leaves uninitialised are modelled as 0:
  - the cells of new matrices;
  - the costs of a handle not built from a product;
  - the costs of a handle built from a product that failed to finalize. matrix.cpp:88-92
    assigns them only when `m_ok` is set.
- Integer widths are not modelled: `int` costs, the `size_t` counter and their
  overflow. The planner's `INT_MAX` sentinel becomes a flag for "no candidate yet".
  The two agree whenever every candidate cost is below `INT_MAX`.
- The global `operator*(const Matrix&, const Matrix&)` (matrix.cpp:263-266) is the
  `MatrixProduct` constructor. The implicit conversion of a product to a `Matrix` is
  `MatrixFromProduct`.
- Several accessors are modelled as plain reads and carry no contract of their own:
  - `ok`, `rows`, `cols` and `name` (matrix.cpp:130-154) read the value as `ok`, `Rows`,
    `Cols` and `Name`;
  - element reads are `At`;
  - Matrix's cost getters `getNaiveCost`/`getOptimizedCost` (matrix.h:157-158) read the
    fields `naiveCost` and `optimizedCost`;
  - `MatrixProduct::getOptimizedCost` (matrix.cpp:244-247) is
    `MatrixChain.MatrixProduct.OptimizedCost`, a read of `numMults`.

  What these values hold is stated by the contracts of the members that set them:
  `Calculate`, `MakeChainOrder` and `MatrixFromProduct`.
- Matrices.Matrix.At: also requires the column to be in range; the source checks only
  the row.
- MatrixChain.MatrixProduct.GetNaiveCost: requires a non-empty chain. On an empty chain
  the source's `size() - 1` wraps around and the loop reads past the end. The only
  caller reaches it after `calculate` succeeded.
- MatrixChain.MatrixFromProduct: requires that a one-matrix chain's operand has
  storage. The source dereferences a null pointer in that case.
- MatrixChain.MatrixChainMultiply: takes the operand list and the counter as
  parameters rather than reading the members. It also takes the ghost tree that the
  split table encodes.
- Matrices.Mult: requires `Multipliable` (b has at least cols(a) rows whenever the loop
  runs). Otherwise the source reads outside b. Every product formed by the executor
  meets this requirement.

## Findings

| source | as written | input that shows it | evidently intended | confidence | as-written member | corrected member |
|---|---|---|---|---|---|---|
| matrix.cpp:239 | the "naive serial" figure adds rows(k) * cols(k) * cols(k+1) for each adjacent pair, which is the cost of multiplying the two operands themselves, not the running product | matrices 100x1, 1x1, 1x100: the figure is 200, but serial evaluation costs 10100, and no order of evaluation costs 200 or less | the cost of serial left-to-right evaluation, d[0] d[k] d[k+1] summed over the steps, which the optimized count never exceeds | not executed | MatrixChain.MatrixProduct.GetNaiveCost, Examples.NaiveCostUnderstates | ChainOrder.SerialCostSteps, ChainOrder.OptimumAtMostSerialCost |

The handle keeps recording the as-written figure, because that is what the source
stores in `m_naiveCost`. The corrected figure is `ChainOrder.SerialCost`.
