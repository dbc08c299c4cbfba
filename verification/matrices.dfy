/** Dense matrices as values: the storage behind a handle (name, shape, elements),
    the handle's status and cost fields, element access and the triple-loop product. */
module Matrices {

  /** What a handle points at: a display name, a shape and a row-major grid. */
  datatype Storage = Storage(name: string, rows: nat, cols: nat, elems: seq<seq<int>>)

  /** A matrix handle. `hasStorage` is false (and `priv` is NoStorage) for a handle built
      from a product whose chain did not validate; `ok` says whether construction succeeded; the two costs are only
      meaningful on a handle built from a product. */
  datatype Matrix = Matrix(hasStorage: bool, priv: Storage, ok: bool, naiveCost: nat, optimizedCost: nat)
  {
    /** The grid has the recorded shape, and a shape is either empty in both
        directions or non-empty in both. */
    predicate Valid()
    {
      (hasStorage || priv == NoStorage) &&
      (priv.rows == 0 <==> priv.cols == 0) &&
      |priv.elems| == priv.rows &&
      forall r | 0 <= r < priv.rows :: |priv.elems[r]| == priv.cols
    }

    function Rows(): nat
    {
      priv.rows
    }

    function Cols(): nat
    {
      priv.cols
    }

    function Name(): string
    {
      priv.name
    }

    /** Bounds-checked element read. */
    function At(i: nat, j: nat): int
      requires Valid() && i < Rows() && j < Cols()
    {
      priv.elems[i][j]
    }

    /** Element write: the same shape, the one cell replaced, every other cell kept. */
    function SetAt(i: nat, j: nat, v: int): (r: Matrix)
      requires Valid() && i < Rows() && j < Cols()
      ensures r.Valid() && r.Rows() == Rows() && r.Cols() == Cols()
      ensures r.Name() == Name() && r.ok == ok
      ensures r.At(i, j) == v
      ensures forall p, q | 0 <= p < Rows() && 0 <= q < Cols() && (p != i || q != j) :: r.At(p, q) == At(p, q)
    {
      var g := priv.elems;
      this.(priv := priv.(elems := g[i := g[i][j := v]]))
    }

    /** Renames the storage; a handle without storage ignores the request. */
    function SetName(name: string): (r: Matrix)
      requires Valid()
      ensures r.Valid() && r.Rows() == Rows() && r.Cols() == Cols()
      ensures hasStorage ==> r.Name() == name
      ensures r.priv.elems == priv.elems && r.hasStorage == hasStorage && r.ok == ok
      ensures r.naiveCost == naiveCost && r.optimizedCost == optimizedCost
      ensures !hasStorage ==> r == this
    {
      if hasStorage then this.(priv := priv.(name := name)) else this
    }
  }

  /** What a handle without storage reports: no rows, no columns, the name "BAD". */
  const NoStorage := Storage("BAD", 0, 0, [])

  /** An m-by-n grid of zeros (the source leaves the cells uninitialised). */
  function Zeros(m: nat, n: nat): seq<seq<int>>
  {
    seq(m, _ => seq(n, _ => 0))
  }

  /** Fresh storage: the requested shape only when both extents are positive,
      otherwise an empty 0-by-0 grid. */
  function NewStorage(m: int, n: int, name: string): Storage
  {
    var (rows, cols) := AllocShape(m, n);
    Storage(name, rows, cols, Zeros(rows, cols))
  }

  /** The shape allocated for a request of m x n. */
  function AllocShape(m: int, n: int): (nat, nat)
  {
    if m > 0 && n > 0 then (m, n) else (0, 0)
  }

  /** The default handle: empty storage named "empty", not ok. */
  function EmptyMatrix(): (r: Matrix)
    ensures r.Valid() && !r.ok
    ensures r.Rows() == 0 && r.Cols() == 0 && r.Name() == "empty"
  {
    Matrix(true, NewStorage(0, 0, "empty"), false, 0, 0)
  }

  /** A newly allocated m-by-n matrix. */
  function NewMatrix(m: int, n: int, name: string): (r: Matrix)
    ensures r.Valid() && r.ok && r.Name() == name
    ensures m > 0 && n > 0 ==> r.Rows() == m && r.Cols() == n
    ensures !(m > 0 && n > 0) ==> r.Rows() == 0 && r.Cols() == 0
  {
    Matrix(true, NewStorage(m, n, name), true, 0, 0)
  }

  /** The triple loop reads `b[k][j]` for every `k < a.Cols()`, so whenever it runs at
      all `b` needs at least that many rows. */
  predicate Multipliable(a: Matrix, b: Matrix)
  {
    a.Rows() == 0 || b.Cols() == 0 || a.Cols() <= b.Rows()
  }

  /** Sum over k < n of a[i][k] * b[k][j], accumulated in increasing k. */
  function Dot(a: Matrix, b: Matrix, i: nat, j: nat, n: nat): int
    requires a.Valid() && b.Valid()
    requires i < a.Rows() && j < b.Cols() && n <= a.Cols() && n <= b.Rows()
  {
    if n == 0 then 0 else Dot(a, b, i, j, n - 1) + a.At(i, n - 1) * b.At(n - 1, j)
  }

  /** The name "(x*y)" given to the product of matrices named x and y. */
  function Parenthesize(x: string, y: string): string
  {
    "(" + x + "*" + y + ")"
  }

  function ProductName(a: Matrix, b: Matrix): string
  {
    Parenthesize(a.Name(), b.Name())
  }

  /** The matrix the triple loop produces. */
  function Product(a: Matrix, b: Matrix): (r: Matrix)
    requires a.Valid() && b.Valid() && Multipliable(a, b)
    ensures r.Valid()
  {
    var (rows, cols) := AllocShape(a.Rows(), b.Cols());
    Matrix(true, Storage(ProductName(a, b), rows, cols, ProductGrid(a, b, rows, cols)), true, 0, 0)
  }

  /** The rows x cols grid of dot products of a's rows with b's columns. */
  function ProductGrid(a: Matrix, b: Matrix, rows: nat, cols: nat): seq<seq<int>>
    requires a.Valid() && b.Valid() && Multipliable(a, b) && rows <= a.Rows() && cols <= b.Cols()
  {
    seq(rows, i requires 0 <= i < rows => seq(cols, j requires 0 <= j < cols => Dot(a, b, i, j, a.Cols())))
  }

  /** The product is named "(a*b)". */
  lemma ProductNamed(a: Matrix, b: Matrix)
    requires a.Valid() && b.Valid() && Multipliable(a, b)
    ensures Product(a, b).Name() == Parenthesize(a.Name(), b.Name())
  {
  }

  /** Conformable operands give a product shaped rows(a) x cols(b). */
  lemma ProductShape(a: Matrix, b: Matrix)
    requires a.Valid() && b.Valid() && a.Cols() == b.Rows()
    ensures Product(a, b).Rows() == a.Rows() && Product(a, b).Cols() == b.Cols()
  {
  }

  /** Two matrices with the same shape and the same cells, whatever their names. */
  predicate SameGrid(x: Matrix, y: Matrix)
  {
    x.Rows() == y.Rows() && x.Cols() == y.Cols() && x.priv.elems == y.priv.elems
  }

  lemma {:induction false} DotCongruent(a: Matrix, a2: Matrix, b: Matrix, b2: Matrix, i: nat, j: nat, n: nat)
    requires a.Valid() && a2.Valid() && b.Valid() && b2.Valid() && SameGrid(a, a2) && SameGrid(b, b2)
    requires i < a.Rows() && j < b.Cols() && n <= a.Cols() && n <= b.Rows()
    ensures Dot(a, b, i, j, n) == Dot(a2, b2, i, j, n)
    decreases n
  {
    if n > 0 {
      DotCongruent(a, a2, b, b2, i, j, n - 1);
    }
  }

  /** The cells of a product depend only on the cells of its operands, not on their names. */
  lemma ProductCongruent(a: Matrix, a2: Matrix, b: Matrix, b2: Matrix)
    requires a.Valid() && a2.Valid() && b.Valid() && b2.Valid() && Multipliable(a, b)
    requires SameGrid(a, a2) && SameGrid(b, b2)
    ensures Multipliable(a2, b2) && SameGrid(Product(a, b), Product(a2, b2))
  {
    var g, h := Product(a, b).priv.elems, Product(a2, b2).priv.elems;
    assert |g| == |h|;
    forall p | 0 <= p < |g| ensures g[p] == h[p] {
      assert |g[p]| == |h[p]|;
      forall q | 0 <= q < |g[p]| ensures g[p][q] == h[p][q] {
        DotCongruent(a, a2, b, b2, p, q, a.Cols());
      }
    }
  }

  /** Sum over l < p of (a b)[i][l] c[l][j], with the inner products taken over k < n. */
  ghost function LeftSum(a: Matrix, b: Matrix, c: Matrix, i: nat, j: nat, n: nat, p: nat): int
    requires a.Valid() && b.Valid() && c.Valid()
    requires i < a.Rows() && n <= a.Cols() && n <= b.Rows() && p <= b.Cols() && p <= c.Rows() && j < c.Cols()
  {
    if p == 0 then 0 else LeftSum(a, b, c, i, j, n, p - 1) + Dot(a, b, i, p - 1, n) * c.At(p - 1, j)
  }

  /** Sum over k < n of a[i][k] (b c)[k][j], with the inner products taken over l < p. */
  ghost function RightSum(a: Matrix, b: Matrix, c: Matrix, i: nat, j: nat, n: nat, p: nat): int
    requires a.Valid() && b.Valid() && c.Valid()
    requires i < a.Rows() && n <= a.Cols() && n <= b.Rows() && p <= b.Cols() && p <= c.Rows() && j < c.Cols()
  {
    if n == 0 then 0 else RightSum(a, b, c, i, j, n - 1, p) + a.At(i, n - 1) * Dot(b, c, n - 1, j, p)
  }

  lemma {:induction false} LeftSumEmpty(a: Matrix, b: Matrix, c: Matrix, i: nat, j: nat, p: nat)
    requires a.Valid() && b.Valid() && c.Valid()
    requires i < a.Rows() && p <= b.Cols() && p <= c.Rows() && j < c.Cols()
    ensures LeftSum(a, b, c, i, j, 0, p) == 0
    decreases p
  {
    if p > 0 {
      LeftSumEmpty(a, b, c, i, j, p - 1);
    }
  }

  lemma Distribute(u: int, x: int, v: int, w: int, s: int)
    ensures (u + x * v) * w == u * w + x * (v * w)
    ensures x * (s + v * w) == x * s + x * (v * w)
  {
  }

  /** Taking term k = n - 1 out of every inner sum of LeftSum. */
  lemma {:induction false} LeftSumPeel(a: Matrix, b: Matrix, c: Matrix, i: nat, j: nat, n: nat, p: nat)
    requires a.Valid() && b.Valid() && c.Valid()
    requires i < a.Rows() && 0 < n <= a.Cols() && n <= b.Rows() && p <= b.Cols() && p <= c.Rows() && j < c.Cols()
    ensures LeftSum(a, b, c, i, j, n, p) == LeftSum(a, b, c, i, j, n - 1, p) + a.At(i, n - 1) * Dot(b, c, n - 1, j, p)
    decreases p
  {
    if p > 0 {
      LeftSumPeel(a, b, c, i, j, n, p - 1);
      var x, u, v, w := a.At(i, n - 1), Dot(a, b, i, p - 1, n - 1), b.At(n - 1, p - 1), c.At(p - 1, j);
      Distribute(u, x, v, w, Dot(b, c, n - 1, j, p - 1));
    }
  }

  /** The double sum can be taken in either order. */
  lemma {:induction false} SumsAgree(a: Matrix, b: Matrix, c: Matrix, i: nat, j: nat, n: nat, p: nat)
    requires a.Valid() && b.Valid() && c.Valid()
    requires i < a.Rows() && n <= a.Cols() && n <= b.Rows() && p <= b.Cols() && p <= c.Rows() && j < c.Cols()
    ensures LeftSum(a, b, c, i, j, n, p) == RightSum(a, b, c, i, j, n, p)
    decreases n
  {
    if n == 0 {
      LeftSumEmpty(a, b, c, i, j, p);
    } else {
      SumsAgree(a, b, c, i, j, n - 1, p);
      LeftSumPeel(a, b, c, i, j, n, p);
    }
  }

  lemma {:induction false} LeftSumIsDot(a: Matrix, b: Matrix, c: Matrix, i: nat, j: nat, p: nat)
    requires a.Valid() && b.Valid() && c.Valid() && a.Cols() == b.Rows() && b.Cols() == c.Rows()
    requires i < a.Rows() && p <= b.Cols() && j < c.Cols()
    ensures Product(a, b).Rows() == a.Rows() && Product(a, b).Cols() == b.Cols()
    ensures LeftSum(a, b, c, i, j, a.Cols(), p) == Dot(Product(a, b), c, i, j, p)
    decreases p
  {
    if p > 0 {
      LeftSumIsDot(a, b, c, i, j, p - 1);
    }
  }

  lemma {:induction false} RightSumIsDot(a: Matrix, b: Matrix, c: Matrix, i: nat, j: nat, n: nat)
    requires a.Valid() && b.Valid() && c.Valid() && a.Cols() == b.Rows() && b.Cols() == c.Rows()
    requires i < a.Rows() && n <= a.Cols() && j < c.Cols()
    ensures Product(b, c).Rows() == b.Rows() && Product(b, c).Cols() == c.Cols()
    ensures RightSum(a, b, c, i, j, n, b.Cols()) == Dot(a, Product(b, c), i, j, n)
    decreases n
  {
    if n > 0 {
      RightSumIsDot(a, b, c, i, j, n - 1);
    }
  }

  /** Matrix multiplication is associative: (a b) c and a (b c) have the same cells. */
  lemma ProductAssociative(a: Matrix, b: Matrix, c: Matrix)
    requires a.Valid() && b.Valid() && c.Valid() && a.Cols() == b.Rows() && b.Cols() == c.Rows()
    ensures Multipliable(Product(a, b), c) && Multipliable(a, Product(b, c))
    ensures SameGrid(Product(Product(a, b), c), Product(a, Product(b, c)))
  {
    if a.Rows() > 0 {
      var g, h := Product(Product(a, b), c).priv.elems, Product(a, Product(b, c)).priv.elems;
      assert |g| == |h|;
      forall p | 0 <= p < |g| ensures g[p] == h[p] {
        assert |g[p]| == |h[p]|;
        forall q | 0 <= q < |g[p]| ensures g[p][q] == h[p][q] {
          LeftSumIsDot(a, b, c, p, q, b.Cols());
          SumsAgree(a, b, c, p, q, a.Cols(), b.Cols());
          RightSumIsDot(a, b, c, p, q, a.Cols());
        }
      }
    }
  }

  /** If x y has the cells of w, then x (y z) has the cells of w z. */
  lemma Regroup(x: Matrix, y: Matrix, z: Matrix, w: Matrix)
    requires x.Valid() && y.Valid() && z.Valid() && w.Valid() && x.Cols() == y.Rows() && y.Cols() == z.Rows()
    requires SameGrid(Product(x, y), w)
    ensures Multipliable(x, Product(y, z)) && Multipliable(w, z)
    ensures SameGrid(Product(x, Product(y, z)), Product(w, z))
  {
    ProductAssociative(x, y, z);
    ProductCongruent(Product(x, y), w, z, z);
  }

  /** The fixed part of the result during the triple loop: fresh storage of the
      product's shape and name. */
  ghost predicate ResultShell(a: Matrix, b: Matrix, r: Matrix)
  {
    var p := NewStorage(a.Rows(), b.Cols(), ProductName(a, b));
    r.Valid() && r.ok && r.naiveCost == 0 && r.optimizedCost == 0 && r.hasStorage &&
    r.priv.name == p.name && r.priv.rows == p.rows && r.priv.cols == p.cols
  }

  /** Every cell before (i, j) in row-major order holds its dot product. */
  ghost predicate FilledUpTo(a: Matrix, b: Matrix, r: Matrix, i: nat, j: nat)
    requires a.Valid() && b.Valid() && Multipliable(a, b) && ResultShell(a, b, r)
    requires i <= a.Rows() && j <= b.Cols()
  {
    (forall p, q | 0 <= p < i && 0 <= q < b.Cols() :: r.At(p, q) == Dot(a, b, p, q, a.Cols())) &&
    (i < a.Rows() ==> forall q | 0 <= q < j :: r.At(i, q) == Dot(a, b, i, q, a.Cols()))
  }

  lemma MulSucc(x: nat, y: nat)
    ensures (x + 1) * y == x * y + y
  {
  }

  lemma MulAssoc(x: nat, y: nat, z: nat)
    ensures x * (y * z) == x * y * z
  {
  }

  /** Writing the dot product into cell (i, j) extends the filled prefix by one cell. */
  lemma FillCell(a: Matrix, b: Matrix, r: Matrix, i: nat, j: nat)
    requires a.Valid() && b.Valid() && Multipliable(a, b) && ResultShell(a, b, r)
    requires i < a.Rows() && j < b.Cols() && FilledUpTo(a, b, r, i, j)
    ensures ResultShell(a, b, r.SetAt(i, j, Dot(a, b, i, j, a.Cols())))
    ensures FilledUpTo(a, b, r.SetAt(i, j, Dot(a, b, i, j, a.Cols())), i, j + 1)
  {
  }

  /** `a.mult(b, numMults)`: a fresh matrix holding the product, named "(a*b)", with
      `a.Cols()` multiplications counted for every output cell. */
  method Mult(a: Matrix, b: Matrix, numMults: nat) returns (result: Matrix, total: nat)
    requires a.Valid() && b.Valid() && Multipliable(a, b)
    ensures result == Product(a, b)
    ensures result.Valid() && result.ok && result.Name() == ProductName(a, b)
    ensures a.Rows() > 0 && b.Cols() > 0 ==> result.Rows() == a.Rows() && result.Cols() == b.Cols()
    ensures forall i, j | 0 <= i < result.Rows() && 0 <= j < result.Cols() ::
              result.At(i, j) == Dot(a, b, i, j, a.Cols())
    ensures total == numMults + a.Rows() * b.Cols() * a.Cols()
  {
    var rows, cols, inner := a.Rows(), b.Cols(), a.Cols();
    var perRow := cols * inner;
    result := NewMatrix(rows, cols, ProductName(a, b));
    var mults := 0;
    var i := 0;
    while i < rows
      invariant 0 <= i <= rows
      invariant ResultShell(a, b, result) && FilledUpTo(a, b, result, i, 0)
      invariant mults == i * perRow
    {
      var j := 0;
      while j < cols
        invariant 0 <= j <= cols
        invariant ResultShell(a, b, result) && FilledUpTo(a, b, result, i, j)
        invariant mults == i * perRow + j * inner
      {
        var sum := 0;
        var k := 0;
        while k < inner
          invariant 0 <= k <= inner
          invariant sum == Dot(a, b, i, j, k)
        {
          sum := sum + a.At(i, k) * b.At(k, j);
          k := k + 1;
        }
        FillCell(a, b, result, i, j);
        result := result.SetAt(i, j, sum);
        MulSucc(j, inner);
        mults := mults + inner;
        j := j + 1;
      }
      assert FilledUpTo(a, b, result, i + 1, 0);
      MulSucc(i, perRow);
      i := i + 1;
    }
    total := numMults + mults;
    MulAssoc(rows, cols, inner);
    ProductEquals(a, b, result);
  }

  /** A grid of the product's shape holding the product's cells is the product. */
  lemma ProductEquals(a: Matrix, b: Matrix, r: Matrix)
    requires a.Valid() && b.Valid() && Multipliable(a, b)
    requires ResultShell(a, b, r) && FilledUpTo(a, b, r, a.Rows(), 0)
    ensures r == Product(a, b)
  {
    var pr := Product(a, b);
    var g, h := r.priv.elems, pr.priv.elems;
    assert |g| == |h|;
    forall p | 0 <= p < |g| ensures g[p] == h[p] {
      assert |g[p]| == |h[p]|;
    }
    assert g == h;
  }
}
