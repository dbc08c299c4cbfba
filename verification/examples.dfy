/** The two chains the repository's own demonstration multiplies: the six-matrix chain of
    the textbook matrix-chain-order example, and a 4 x 4 transform pipeline applied to a
    column vector, whose planner has to break a tie. */
module Examples {
  import opened Matrices
  import opened ChainOrder
  import opened MatrixChain

  /** A (30 x 35), B (35 x 15), C (15 x 5), D (5 x 10), E (10 x 20), F (20 x 25). */
  function TextbookChain(): (ms: seq<Matrix>)
    ensures |ms| == 6 && AllValid(ms) && Conformable(ms)
    ensures ms[0].Name() == "A" && ms[1].Name() == "B" && ms[2].Name() == "C"
    ensures ms[3].Name() == "D" && ms[4].Name() == "E" && ms[5].Name() == "F"
    ensures Dims(ms) == [30, 35, 15, 5, 10, 20, 25]
  {
    var ms := [NewMatrix(30, 35, "A"), NewMatrix(35, 15, "B"), NewMatrix(15, 5, "C"),
               NewMatrix(5, 10, "D"), NewMatrix(10, 20, "E"), NewMatrix(20, 25, "F")];
    assert forall k | 0 <= k < |ms| - 1 :: Fits(ms, k);
    ms
  }

  /** The cost and split tables of the textbook chain, entry by entry. */
  lemma TextbookTables(d: seq<nat>)
    requires d == [30, 35, 15, 5, 10, 20, 25]
    ensures Opt(d, 1, 6) == 15125
    ensures Split(d, 1, 6) == 3 && Split(d, 1, 3) == 1 && Split(d, 2, 3) == 2
    ensures Split(d, 4, 6) == 5 && Split(d, 4, 5) == 4
  {
    assert Best(d, 1, 2, 2) == Choice(15750, 1);
    assert Opt(d, 1, 2) == 15750;
    assert Best(d, 2, 3, 3) == Choice(2625, 2);
    assert Opt(d, 2, 3) == 2625;
    assert Best(d, 3, 4, 4) == Choice(750, 3);
    assert Opt(d, 3, 4) == 750;
    assert Best(d, 4, 5, 5) == Choice(1000, 4);
    assert Opt(d, 4, 5) == 1000;
    assert Best(d, 5, 6, 6) == Choice(5000, 5);
    assert Opt(d, 5, 6) == 5000;
    assert Best(d, 1, 3, 2) == Choice(7875, 1);
    assert Best(d, 1, 3, 3) == Choice(7875, 1);
    assert Opt(d, 1, 3) == 7875;
    assert Best(d, 2, 4, 3) == Choice(6000, 2);
    assert Best(d, 2, 4, 4) == Choice(4375, 3);
    assert Opt(d, 2, 4) == 4375;
    assert Best(d, 3, 5, 4) == Choice(2500, 3);
    assert Best(d, 3, 5, 5) == Choice(2500, 3);
    assert Opt(d, 3, 5) == 2500;
    assert Best(d, 4, 6, 5) == Choice(6250, 4);
    assert Best(d, 4, 6, 6) == Choice(3500, 5);
    assert Opt(d, 4, 6) == 3500;
    assert Best(d, 1, 4, 2) == Choice(14875, 1);
    assert Best(d, 1, 4, 3) == Choice(14875, 1);
    assert Best(d, 1, 4, 4) == Choice(9375, 3);
    assert Opt(d, 1, 4) == 9375;
    assert Best(d, 2, 5, 3) == Choice(13000, 2);
    assert Best(d, 2, 5, 4) == Choice(7125, 3);
    assert Best(d, 2, 5, 5) == Choice(7125, 3);
    assert Opt(d, 2, 5) == 7125;
    assert Best(d, 3, 6, 4) == Choice(5375, 3);
    assert Best(d, 3, 6, 5) == Choice(5375, 3);
    assert Best(d, 3, 6, 6) == Choice(5375, 3);
    assert Opt(d, 3, 6) == 5375;
    assert Best(d, 1, 5, 2) == Choice(28125, 1);
    assert Best(d, 1, 5, 3) == Choice(27250, 2);
    assert Best(d, 1, 5, 4) == Choice(11875, 3);
    assert Best(d, 1, 5, 5) == Choice(11875, 3);
    assert Opt(d, 1, 5) == 11875;
    assert Best(d, 2, 6, 3) == Choice(18500, 2);
    assert Best(d, 2, 6, 4) == Choice(10500, 3);
    assert Best(d, 2, 6, 5) == Choice(10500, 3);
    assert Best(d, 2, 6, 6) == Choice(10500, 3);
    assert Opt(d, 2, 6) == 10500;
    assert Best(d, 1, 6, 2) == Choice(36750, 1);
    assert Best(d, 1, 6, 3) == Choice(32375, 2);
    assert Best(d, 1, 6, 4) == Choice(15125, 3);
    assert Best(d, 1, 6, 5) == Choice(15125, 3);
    assert Best(d, 1, 6, 6) == Choice(15125, 3);
    assert Opt(d, 1, 6) == 15125;
  }

  /** TB, RZ, TO (each 4 x 4) times the column vector A (4 x 1). */
  function TransformChain(): (ms: seq<Matrix>)
    ensures |ms| == 4 && AllValid(ms) && Conformable(ms)
    ensures ms[0].Name() == "TB" && ms[1].Name() == "RZ" && ms[2].Name() == "TO" && ms[3].Name() == "A"
    ensures Dims(ms) == [4, 4, 4, 4, 1]
  {
    var ms := [NewMatrix(4, 4, "TB"), NewMatrix(4, 4, "RZ"), NewMatrix(4, 4, "TO"), NewMatrix(4, 1, "A")];
    assert forall k | 0 <= k < |ms| - 1 :: Fits(ms, k);
    ms
  }

  /** The tables of the transform chain. Splitting A_1..A_3 after A_1 and after A_2 both
      cost 128; the planner keeps the first. */
  lemma TransformTables(d: seq<nat>)
    requires d == [4, 4, 4, 4, 1]
    ensures Opt(d, 1, 4) == 48 && Split(d, 1, 4) == 1 && Split(d, 2, 4) == 2 && Split(d, 3, 4) == 3
    ensures Candidate(d, 1, 3, 1) == 128 && Candidate(d, 1, 3, 2) == 128 && Split(d, 1, 3) == 1
  {
    assert Best(d, 1, 2, 2) == Choice(64, 1);
    assert Opt(d, 1, 2) == 64;
    assert Best(d, 2, 3, 3) == Choice(64, 2);
    assert Opt(d, 2, 3) == 64;
    assert Best(d, 3, 4, 4) == Choice(16, 3);
    assert Opt(d, 3, 4) == 16;
    assert Best(d, 1, 3, 2) == Choice(128, 1);
    assert Best(d, 1, 3, 3) == Choice(128, 1);
    assert Opt(d, 1, 3) == 128;
    assert Best(d, 2, 4, 3) == Choice(32, 2);
    assert Best(d, 2, 4, 4) == Choice(32, 2);
    assert Opt(d, 2, 4) == 32;
    assert Best(d, 1, 4, 2) == Choice(48, 1);
    assert Best(d, 1, 4, 3) == Choice(48, 1);
    assert Best(d, 1, 4, 4) == Choice(48, 1);
    assert Opt(d, 1, 4) == 48;
  }

  /** The textbook chain is planned as (A(BC))((DE)F). */
  lemma TextbookTree(d: seq<nat>)
    requires d == [30, 35, 15, 5, 10, 20, 25]
    ensures OptTree(d, 1, 6) == Node(3, Node(1, Leaf(1), Node(2, Leaf(2), Leaf(3))), Node(5, Node(4, Leaf(4), Leaf(5)), Leaf(6)))
  {
    TextbookTables(d);
    assert OptTree(d, 1, 3) == Node(1, Leaf(1), OptTree(d, 2, 3));
    assert OptTree(d, 4, 6) == Node(5, OptTree(d, 4, 5), Leaf(6));
  }

  /** The name that plan gives a chain of matrices named A to F. */
  lemma TextbookName(ms: seq<Matrix>)
    requires |ms| == 6
    requires ms[0].Name() == "A" && ms[1].Name() == "B" && ms[2].Name() == "C"
    requires ms[3].Name() == "D" && ms[4].Name() == "E" && ms[5].Name() == "F"
    ensures Label(ms, Node(3, Node(1, Leaf(1), Node(2, Leaf(2), Leaf(3))), Node(5, Node(4, Leaf(4), Leaf(5)), Leaf(6))), 1, 6)
              == "((A*(B*C))*((D*E)*F))"
  {
    var bc, de := Node(2, Leaf(2), Leaf(3)), Node(4, Leaf(4), Leaf(5));
    assert Label(ms, bc, 2, 3) == Parenthesize("B", "C");
    assert Label(ms, Node(1, Leaf(1), bc), 1, 3) == Parenthesize("A", Parenthesize("B", "C"));
    assert Label(ms, de, 4, 5) == Parenthesize("D", "E");
    assert Label(ms, Node(5, de, Leaf(6)), 4, 6) == Parenthesize(Parenthesize("D", "E"), "F");
    assert Label(ms, Node(3, Node(1, Leaf(1), bc), Node(5, de, Leaf(6))), 1, 6) ==
           Parenthesize(Parenthesize("A", Parenthesize("B", "C")), Parenthesize(Parenthesize("D", "E"), "F"));
    TextbookSpelling();
  }

  /** The nested names spelled out. */
  lemma TextbookSpelling()
    ensures Parenthesize(Parenthesize("A", Parenthesize("B", "C")), Parenthesize(Parenthesize("D", "E"), "F")) ==
            "((A*(B*C))*((D*E)*F))"
  {
  }

  /** The naive figure for the textbook chain. */
  lemma TextbookNaiveCost()
    ensures NaiveCost(TextbookChain()) == 25125
  {
    var ms := TextbookChain();
    assert NaiveCostUpTo(ms, 2) == 15750 + 2625;
    assert NaiveCostUpTo(ms, 4) == 15750 + 2625 + 750 + 1000;
  }

  /** `a * b * c * d * e * f` for the textbook chain, and the handle built from it. */
  method ExampleChain() returns (product: Matrix)
    ensures product.ok && product.Rows() == 30 && product.Cols() == 25
    ensures product.Name() == "((A*(B*C))*((D*E)*F))"
    ensures product.naiveCost == 25125 && product.optimizedCost == 15125
  {
    var ms := TextbookChain();
    var chain := new MatrixProduct(ms[0], ms[1]);
    chain := chain.Times(ms[2]);
    chain := chain.Times(ms[3]);
    chain := chain.Times(ms[4]);
    chain := chain.Times(ms[5]);
    assert chain.matrices == ms;
    product := MatrixFromProduct(chain);
    assert chain.matrices == ms;
    TextbookTables(Dims(ms));
    TextbookTree(Dims(ms));
    TextbookName(ms);
    TextbookNaiveCost();
  }

  /** The transform chain is planned as TB(RZ(TO A)): every product is formed with the
      vector, so each one costs 16. */
  lemma TransformTree(d: seq<nat>)
    requires d == [4, 4, 4, 4, 1]
    ensures OptTree(d, 1, 4) == Node(1, Leaf(1), Node(2, Leaf(2), Node(3, Leaf(3), Leaf(4))))
  {
    TransformTables(d);
  }

  /** The name that plan gives a chain of matrices named TB, RZ, TO and A. */
  lemma TransformName(ms: seq<Matrix>)
    requires |ms| == 4
    requires ms[0].Name() == "TB" && ms[1].Name() == "RZ" && ms[2].Name() == "TO" && ms[3].Name() == "A"
    ensures Label(ms, Node(1, Leaf(1), Node(2, Leaf(2), Node(3, Leaf(3), Leaf(4)))), 1, 4) == "(TB*(RZ*(TO*A)))"
  {
    var toA := Node(3, Leaf(3), Leaf(4));
    assert Label(ms, toA, 3, 4) == Parenthesize("TO", "A");
    assert Label(ms, Node(2, Leaf(2), toA), 2, 4) == Parenthesize("RZ", Parenthesize("TO", "A"));
  }

  /** The naive figure for the transform chain. */
  lemma TransformNaiveCost()
    ensures NaiveCost(TransformChain()) == 144
  {
    var ms := TransformChain();
    assert NaiveCostUpTo(ms, 2) == 128;
  }

  /** `tb * rz * to * pt_in`, and the handle built from it: a 4 x 1 vector. */
  method Matrix4x4Comparison() returns (ptOut: Matrix)
    ensures ptOut.ok && ptOut.Rows() == 4 && ptOut.Cols() == 1
    ensures ptOut.Name() == "(TB*(RZ*(TO*A)))"
    ensures ptOut.naiveCost == 144 && ptOut.optimizedCost == 48
  {
    var ms := TransformChain();
    var chain := new MatrixProduct(ms[0], ms[1]);
    chain := chain.Times(ms[2]);
    chain := chain.Times(ms[3]);
    assert chain.matrices == ms;
    ptOut := MatrixFromProduct(chain);
    assert chain.matrices == ms;
    TransformTables(Dims(ms));
    TransformTree(Dims(ms));
    TransformName(ms);
    TransformNaiveCost();
  }

  /** A (100 x 1), B (1 x 1), C (1 x 100). */
  function SkewedChain(): (ms: seq<Matrix>)
    ensures |ms| == 3 && AllValid(ms) && Conformable(ms)
    ensures Dims(ms) == [100, 1, 1, 100]
  {
    var ms := [NewMatrix(100, 1, "A"), NewMatrix(1, 1, "B"), NewMatrix(1, 100, "C")];
    assert forall k | 0 <= k < |ms| - 1 :: Fits(ms, k);
    ms
  }

  /** The naive figure multiplies each matrix's own row count into its step, but after
      the first step the left operand of serial evaluation is the running product, whose
      row count is that of the first matrix. On this chain the figure is 200, while every
      order of evaluation, serial or not, takes 10100 multiplications. */
  lemma NaiveCostUnderstates()
    ensures var ms := SkewedChain();
            NaiveCost(ms) == 200 && SerialCost(Dims(ms)) == 10100 &&
            forall t | Spans(t, 1, 3) :: NaiveCost(ms) < Cost(Dims(ms), t, 1, 3)
  {
    var ms := SkewedChain();
    var d := Dims(ms);
    assert Best(d, 1, 2, 2) == Choice(100, 1);
    assert Best(d, 2, 3, 3) == Choice(100, 2);
    assert Best(d, 1, 3, 2) == Choice(10100, 1);
    assert Best(d, 1, 3, 3) == Choice(10100, 1);
    OptIsMinimum(d, 1, 3);
    SerialCostSteps(d, 3);
  }
}
