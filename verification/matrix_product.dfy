/** The deferred chain product: operands are collected first, and only when the chain is
    finalized is it validated, planned with the chain-order tables and multiplied along
    the planned parenthesization. Chain positions are 1-based in the planner's terms:
    A_i is `matrices[i - 1]`. */
module MatrixChain {
  import opened Matrices
  import opened ChainOrder

  datatype Result<T, E> = Ok(value: T) | Err(error: E)

  /** Why a chain cannot be finalized. `DimensionMismatch(k)` names the first k with
      cols(matrices[k]) != rows(matrices[k + 1]). */
  datatype ChainError = EmptyChain | DimensionMismatch(index: nat)

  predicate AllValid(ms: seq<Matrix>)
  {
    forall k | 0 <= k < |ms| :: ms[k].Valid()
  }

  /** Every adjacent pair can be multiplied: cols(A_k) == rows(A_(k+1)). */
  predicate Conformable(ms: seq<Matrix>)
  {
    forall k | 0 <= k < |ms| - 1 :: Fits(ms, k)
  }

  /** cols(matrices[k]) == rows(matrices[k + 1]). */
  predicate Fits(ms: seq<Matrix>, k: nat)
    requires k < |ms| - 1
  {
    ms[k].Cols() == ms[k + 1].Rows()
  }

  /** The dimension vector: d[0] = rows of the first matrix, d[k] = cols of the k-th. */
  function Dims(ms: seq<Matrix>): (d: seq<nat>)
    requires |ms| >= 1
    ensures |d| == |ms| + 1
  {
    seq(|ms| + 1, k requires 0 <= k <= |ms| => if k == 0 then ms[0].Rows() else ms[k - 1].Cols())
  }

  /** In a conformable chain A_k is d[k-1] x d[k]. */
  lemma DimsShape(ms: seq<Matrix>, k: nat)
    requires |ms| >= 1 && Conformable(ms) && 1 <= k <= |ms|
    ensures Dims(ms)[k - 1] == ms[k - 1].Rows() && Dims(ms)[k] == ms[k - 1].Cols()
  {
    if k > 1 {
      assert Fits(ms, k - 2);
    }
  }

  /** The fully parenthesized name "(x*y)" a tree gives a chain of named matrices. */
  function Label(ms: seq<Matrix>, t: Tree, i: nat, j: nat): string
    requires 1 <= i <= j <= |ms| && Spans(t, i, j)
  {
    match t
    case Leaf(_) => ms[i - 1].Name()
    case Node(k, l, r) => Parenthesize(Label(ms, l, i, k), Label(ms, r, k + 1, j))
  }

  /** The matrix obtained by multiplying A_i..A_j in the grouping t. */
  function Eval(ms: seq<Matrix>, t: Tree, i: nat, j: nat): (r: Matrix)
    requires AllValid(ms) && Conformable(ms) && 1 <= i <= j <= |ms| && Spans(t, i, j)
    ensures r.Valid()
    ensures r.Rows() == ms[i - 1].Rows() && r.Cols() == ms[j - 1].Cols()
  {
    match t
    case Leaf(_) => ms[i - 1]
    case Node(k, l, r) =>
      var x, y := Eval(ms, l, i, k), Eval(ms, r, k + 1, j);
      assert Fits(ms, k - 1);
      ProductShape(x, y);
      Product(x, y)
  }

  /** The name of an evaluated chain is its parenthesization. */
  lemma {:induction false} EvalLabel(ms: seq<Matrix>, t: Tree, i: nat, j: nat)
    requires AllValid(ms) && Conformable(ms) && 1 <= i <= j <= |ms| && Spans(t, i, j)
    ensures Eval(ms, t, i, j).Name() == Label(ms, t, i, j)
    decreases j - i
  {
    if i < j {
      EvalNode(ms, t, i, j);
      var k := t.split;
      EvalLabel(ms, t.left, i, k);
      EvalLabel(ms, t.right, k + 1, j);
      var x, y := Eval(ms, t.left, i, k), Eval(ms, t.right, k + 1, j);
      ProductNamed(x, y);
    }
  }

  /** The product of A_i..A_j formed strictly left to right. */
  function SerialProduct(ms: seq<Matrix>, i: nat, j: nat): (r: Matrix)
    requires AllValid(ms) && Conformable(ms) && 1 <= i <= j <= |ms|
    ensures r.Valid()
    ensures r.Rows() == ms[i - 1].Rows() && r.Cols() == ms[j - 1].Cols()
    decreases j - i
  {
    if i == j then ms[i - 1]
    else
      var x := SerialProduct(ms, i, j - 1);
      assert Fits(ms, j - 2);
      ProductShape(x, ms[j - 1]);
      Product(x, ms[j - 1])
  }

  /** Evaluating the left-to-right parenthesization is the serial product. */
  lemma {:induction false} SerialIsLeftToRight(ms: seq<Matrix>, i: nat, j: nat)
    requires AllValid(ms) && Conformable(ms) && 1 <= i <= j <= |ms|
    ensures Eval(ms, LeftToRight(i, j), i, j) == SerialProduct(ms, i, j)
    decreases j - i
  {
    if i < j {
      EvalNode(ms, LeftToRight(i, j), i, j);
      SerialIsLeftToRight(ms, i, j - 1);
    }
  }

  /** Multiplying the serial products of A_i..A_k and A_(k+1)..A_j gives the cells of the
      serial product of A_i..A_j. */
  lemma {:induction false} JoinSerial(ms: seq<Matrix>, i: nat, k: nat, j: nat)
    requires AllValid(ms) && Conformable(ms) && 1 <= i <= k < j <= |ms|
    ensures Fits(ms, k - 1)
    ensures SameGrid(Product(SerialProduct(ms, i, k), SerialProduct(ms, k + 1, j)), SerialProduct(ms, i, j))
    decreases j - k
  {
    assert Fits(ms, k - 1);
    if k + 1 < j {
      assert Fits(ms, j - 2);
      JoinSerial(ms, i, k, j - 1);
      Regroup(SerialProduct(ms, i, k), SerialProduct(ms, k + 1, j - 1), ms[j - 1], SerialProduct(ms, i, j - 1));
    }
  }

  /** Whatever the parenthesization, the chain product has the cells of the serial
      left-to-right product. */
  lemma {:induction false} EvalAnyOrder(ms: seq<Matrix>, t: Tree, i: nat, j: nat)
    requires AllValid(ms) && Conformable(ms) && 1 <= i <= j <= |ms| && Spans(t, i, j)
    ensures SameGrid(Eval(ms, t, i, j), SerialProduct(ms, i, j))
    decreases j - i
  {
    if i < j {
      EvalNode(ms, t, i, j);
      var k := t.split;
      EvalAnyOrder(ms, t.left, i, k);
      EvalAnyOrder(ms, t.right, k + 1, j);
      ProductCongruent(Eval(ms, t.left, i, k), SerialProduct(ms, i, k),
                       Eval(ms, t.right, k + 1, j), SerialProduct(ms, k + 1, j));
      JoinSerial(ms, i, k, j);
    }
  }

  /** Any two parenthesizations of A_i..A_j give the same shape and the same cells. */
  lemma GroupingIrrelevant(ms: seq<Matrix>, t1: Tree, t2: Tree, i: nat, j: nat)
    requires AllValid(ms) && Conformable(ms) && 1 <= i <= j <= |ms| && Spans(t1, i, j) && Spans(t2, i, j)
    ensures SameGrid(Eval(ms, t1, i, j), Eval(ms, t2, i, j))
  {
    EvalAnyOrder(ms, t1, i, j);
    EvalAnyOrder(ms, t2, i, j);
  }

  /** t is the parenthesization of A_i..A_j that the split table s encodes. */
  ghost predicate Encodes(s: array2<int>, t: Tree, i: nat, j: nat)
    reads s
    ensures Encodes(s, t, i, j) ==> Spans(t, i, j)
    decreases t
  {
    j < s.Length0 && j < s.Length1 &&
    match t
    case Leaf(x) => i == x && j == x
    case Node(k, l, r) => i < j && k == s[i, j] && i <= k < j && Encodes(s, l, i, k) && Encodes(s, r, k + 1, j)
  }

  /** A split table filled by the planner encodes the optimal parenthesization. */
  lemma {:induction false} PlannedTableEncodes(d: seq<nat>, s: array2<int>, i: nat, j: nat)
    requires 1 <= i <= j < |d| && j < s.Length0 && j < s.Length1
    requires forall a, b | i <= a < b <= j :: s[a, b] == Split(d, a, b)
    ensures Encodes(s, OptTree(d, i, j), i, j)
    decreases j - i
  {
    if i < j {
      OptRecurrence(d, i, j);
      var k := s[i, j];
      PlannedTableEncodes(d, s, i, k);
      PlannedTableEncodes(d, s, k + 1, j);
    }
  }

  /** Evaluating a split chain multiplies the values of its two sides. */
  lemma EvalNode(ms: seq<Matrix>, t: Tree, i: nat, j: nat)
    requires AllValid(ms) && Conformable(ms) && 1 <= i < j <= |ms| && Spans(t, i, j)
    ensures t.Node? && Fits(ms, t.split - 1)
    ensures Eval(ms, t, i, j) == Product(Eval(ms, t.left, i, t.split), Eval(ms, t.right, t.split + 1, j))
  {
    assert Fits(ms, t.split - 1);
  }

  /** One step of the executor: once both sides of the split are evaluated, their
      product is the value of the whole sub-chain, and the multiplications it counts
      are the node's share of the cost. */
  lemma ChainStep(ms: seq<Matrix>, t: Tree, i: nat, j: nat, x: Matrix, y: Matrix)
    requires AllValid(ms) && Conformable(ms) && 1 <= i < j <= |ms| && Spans(t, i, j)
    requires t.Node? && x == Eval(ms, t.left, i, t.split) && y == Eval(ms, t.right, t.split + 1, j)
    ensures x.Valid() && y.Valid() && Multipliable(x, y)
    ensures Eval(ms, t, i, j) == Product(x, y)
    ensures Cost(Dims(ms), t, i, j) ==
              Cost(Dims(ms), t.left, i, t.split) + Cost(Dims(ms), t.right, t.split + 1, j) +
              x.Rows() * y.Cols() * x.Cols()
  {
    EvalNode(ms, t, i, j);
    var k, d := t.split, Dims(ms);
    DimsShape(ms, i);
    DimsShape(ms, k);
    DimsShape(ms, j);
    NodeCount(x.Rows(), x.Cols(), y.Cols(), d[i - 1], d[k], d[j]);
  }

  /** Multiplying a p x q matrix by a q x r one counts p * r * q multiplications, which
      is the node cost d[i-1] d[k] d[j] when p, q, r are d[i-1], d[k], d[j]. */
  lemma NodeCount(p: nat, q: nat, r: nat, di: nat, dk: nat, dj: nat)
    requires p == di && q == dk && r == dj
    ensures p * r * q == di * dk * dj
  {
  }

  /** Sum over k < upTo of rows(k) * cols(k) * cols(k + 1). */
  function NaiveCostUpTo(ms: seq<Matrix>, upTo: nat): nat
    requires upTo < |ms|
  {
    if upTo == 0 then 0
    else NaiveCostUpTo(ms, upTo - 1) + ms[upTo - 1].Rows() * ms[upTo - 1].Cols() * ms[upTo].Cols()
  }

  /** The comparison figure reported as the cost of naive serial computation. */
  function NaiveCost(ms: seq<Matrix>): nat
    requires |ms| >= 1
  {
    NaiveCostUpTo(ms, |ms| - 1)
  }

  /** Collects the operands of a chain product. */
  class MatrixProduct {
    var matrices: seq<Matrix>
    var numMults: nat

    ghost predicate Valid()
      reads this
    {
      AllValid(matrices)
    }

    /** A product seeded with exactly its first two operands, in order. */
    constructor (m1: Matrix, m2: Matrix)
      requires m1.Valid() && m2.Valid()
      ensures Valid()
      ensures matrices == [m1, m2] && numMults == 0
    {
      matrices := [m1, m2];
      numMults := 0;
    }

    /** `operator*`: appends one more operand and hands back the same product. Nothing
        is validated or computed. */
    method Times(m: Matrix) returns (self: MatrixProduct)
      requires Valid() && m.Valid()
      modifies this
      ensures Valid() && self == this
      ensures matrices == old(matrices) + [m] && numMults == old(numMults)
    {
      matrices := matrices + [m];
      self := this;
    }

    /** The multiplications counted since the last successful plan. */
    function OptimizedCost(): nat
      reads this
    {
      numMults
    }

    /** The naive figure: for every adjacent pair, rows(k) * cols(k) * cols(k + 1). */
    method GetNaiveCost() returns (cost: nat)
      requires |matrices| >= 1
      ensures cost == NaiveCost(matrices)
      ensures |matrices| == 1 ==> cost == 0
    {
      cost := 0;
      var last := |matrices| - 1;
      var i := 0;
      while i < last
        invariant 0 <= i <= last
        invariant cost == NaiveCostUpTo(matrices, i)
      {
        cost := cost + matrices[i].Rows() * matrices[i].Cols() * matrices[i + 1].Cols();
        i := i + 1;
      }
    }

    /** Finalizes the chain. An empty chain fails; a single matrix is its own product;
        otherwise every adjacent pair is checked first, and only a conformable chain is
        planned and multiplied, with the counter restarted at zero. */
    method Calculate() returns (outcome: Result<Matrix, ChainError>)
      requires Valid()
      modifies this`numMults
      ensures outcome.Ok? <==> |matrices| >= 1 && Conformable(matrices)
      ensures |matrices| == 0 ==> outcome == Err(EmptyChain)
      ensures |matrices| == 1 ==> outcome == Ok(matrices[0])
      ensures |matrices| <= 1 ==> numMults == old(numMults)
      ensures |matrices| >= 1 && !Conformable(matrices) ==> outcome.Err? && outcome.error.DimensionMismatch?
      ensures outcome.Err? ==> numMults == old(numMults)
      ensures outcome.Ok? ==> outcome.value.Valid()
      ensures outcome.Err? && outcome.error.DimensionMismatch? ==>
                var x := outcome.error.index;
                x < |matrices| - 1 && matrices[x].Cols() != matrices[x + 1].Rows() &&
                (forall k | 0 <= k < x :: matrices[k].Cols() == matrices[k + 1].Rows())
      ensures |matrices| >= 2 && Conformable(matrices) ==>
                var n := |matrices|;
                outcome.value == Eval(matrices, OptTree(Dims(matrices), 1, n), 1, n) &&
                outcome.value.Rows() == matrices[0].Rows() &&
                outcome.value.Cols() == matrices[n - 1].Cols() &&
                outcome.value.Name() == Label(matrices, OptTree(Dims(matrices), 1, n), 1, n) &&
                numMults == Opt(Dims(matrices), 1, n)
    {
      if |matrices| == 0 {
        return Err(EmptyChain);
      }
      if |matrices| == 1 {
        return Ok(matrices[0]);
      }
      var last := |matrices| - 1;
      var i := 0;
      while i < last
        invariant 0 <= i <= last
        invariant forall k | 0 <= k < i :: matrices[k].Cols() == matrices[k + 1].Rows()
      {
        if matrices[i].Cols() != matrices[i + 1].Rows() {
          assert !Fits(matrices, i);
          return Err(DimensionMismatch(i));
        }
        i := i + 1;
      }
      numMults := 0;
      var product := MakeChainOrder();
      EvalLabel(matrices, OptTree(Dims(matrices), 1, |matrices|), 1, |matrices|);
      return Ok(product);
    }

    /** Builds the dimension vector, fills the tables and multiplies along the splits. */
    method MakeChainOrder() returns (result: Matrix)
      requires Valid() && |matrices| >= 1 && Conformable(matrices)
      modifies this`numMults
      ensures result == Eval(matrices, OptTree(Dims(matrices), 1, |matrices|), 1, |matrices|)
      ensures numMults == old(numMults) + Opt(Dims(matrices), 1, |matrices|)
    {
      var n := |matrices|;
      var dims := new nat[n + 1];
      dims[0] := matrices[0].Rows();
      var i := 1;
      while i <= n
        invariant 1 <= i <= n + 1
        invariant dims[0] == matrices[0].Rows() && numMults == old(numMults)
        invariant forall k | 1 <= k < i :: dims[k] == matrices[k - 1].Cols()
      {
        dims[i] := matrices[i - 1].Cols();
        i := i + 1;
      }
      ghost var d := Dims(matrices);
      assert dims[..] == d by {
        forall k | 0 <= k <= n ensures dims[k] == d[k] { }
      }
      var m, s := ChainOrderTables(dims[..]);
      PlannedTableEncodes(d, s, 1, n);
      OptTreeAttains(d, 1, n);
      result, numMults := MatrixChainMultiply(matrices, s, 1, n, OptTree(d, 1, n), numMults);
    }
  }

  /** Multiplies A_i..A_j of `ms` along the split table: a single matrix is returned as
      is, otherwise both sides of the split are formed recursively and then multiplied,
      the multiplications being added to the running count. */
  method MatrixChainMultiply(ms: seq<Matrix>, s: array2<int>, i: nat, j: nat, ghost t: Tree, numMults: nat)
    returns (result: Matrix, total: nat)
    requires AllValid(ms) && Conformable(ms)
    requires 1 <= i <= j <= |ms| && Encodes(s, t, i, j)
    decreases j - i
    ensures result == Eval(ms, t, i, j)
    ensures result.Rows() == ms[i - 1].Rows() && result.Cols() == ms[j - 1].Cols()
    ensures total == numMults + Cost(Dims(ms), t, i, j)
  {
    if j > i {
      var k := s[i, j];
      var x, afterLeft := MatrixChainMultiply(ms, s, i, k, t.left, numMults);
      var y, afterRight := MatrixChainMultiply(ms, s, k + 1, j, t.right, afterLeft);
      ChainStep(ms, t, i, j, x, y);
      result, total := Mult(x, y, afterRight);
    } else {
      result, total := ms[i - 1], numMults;
    }
  }

  /** `Matrix(const MatrixProduct&)`: finalizes the product; on success the handle
      shares the product's storage and records both cost figures, on failure it has no
      storage (0 x 0, named "BAD") and is not ok. */
  method MatrixFromProduct(mp: MatrixProduct) returns (r: Matrix)
    requires mp.Valid()
    requires |mp.matrices| == 1 ==> mp.matrices[0].hasStorage
    modifies mp`numMults
    ensures r.ok <==> |mp.matrices| >= 1 && Conformable(mp.matrices)
    ensures r.Valid() && r.hasStorage == r.ok
    ensures !r.ok ==> r == Matrix(false, NoStorage, false, 0, 0) && r.Name() == "BAD" && r.Rows() == 0 && r.Cols() == 0
    ensures !r.ok ==> mp.numMults == old(mp.numMults)
    ensures r.ok ==> r.naiveCost == NaiveCost(mp.matrices) && r.optimizedCost == mp.numMults
    ensures r.ok && |mp.matrices| == 1 ==> r.priv == mp.matrices[0].priv && r.optimizedCost == old(mp.numMults)
    ensures r.ok && |mp.matrices| >= 2 ==>
              var n := |mp.matrices|;
              r.priv == Eval(mp.matrices, OptTree(Dims(mp.matrices), 1, n), 1, n).priv &&
              r.Rows() == mp.matrices[0].Rows() && r.Cols() == mp.matrices[n - 1].Cols() &&
              r.Name() == Label(mp.matrices, OptTree(Dims(mp.matrices), 1, n), 1, n) &&
              r.optimizedCost == Opt(Dims(mp.matrices), 1, n) && mp.numMults == Opt(Dims(mp.matrices), 1, n)
  {
    var outcome := mp.Calculate();
    if outcome.Ok? {
      var naive := mp.GetNaiveCost();
      r := Matrix(true, outcome.value.priv, true, naive, mp.OptimizedCost());
    } else {
      r := Matrix(false, NoStorage, false, 0, 0);
    }
  }
}
