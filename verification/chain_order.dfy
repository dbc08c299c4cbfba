/** The matrix-chain-order dynamic program (Cormen, Leiserson and Rivest, "Introduction
    to Algorithms", matrix-chain multiplication). A chain A_1..A_n is described by its
    dimension vector d[0..n]: A_i is d[i-1] x d[i]. */
module ChainOrder {

  /** A full parenthesization of a sub-chain: a single matrix A_index, or the product of
      the parts A_i..A_split and A_(split+1)..A_j. */
  datatype Tree = Leaf(index: nat) | Node(split: nat, left: Tree, right: Tree)

  /** t parenthesizes exactly A_i..A_j. */
  predicate Spans(t: Tree, i: nat, j: nat)
  {
    match t
    case Leaf(x) => i == x && j == x
    case Node(k, l, r) => i <= k < j && Spans(l, i, k) && Spans(r, k + 1, j)
  }

  /** Scalar multiplications needed to evaluate t: forming (A_i..A_k)(A_(k+1)..A_j)
      from its two parts costs d[i-1] * d[k] * d[j]. */
  function Cost(d: seq<nat>, t: Tree, i: nat, j: nat): nat
    requires 1 <= i <= j < |d| && Spans(t, i, j)
  {
    match t
    case Leaf(_) => 0
    case Node(k, l, r) => Cost(d, l, i, k) + Cost(d, r, k + 1, j) + d[i - 1] * d[k] * d[j]
  }

  /** A cost together with the split that achieves it. */
  datatype Choice = Choice(cost: nat, split: nat)

  /** The cost of splitting A_i..A_j after A_k and solving both parts optimally. */
  function Candidate(d: seq<nat>, i: nat, j: nat, k: nat): nat
    requires 1 <= i <= k < j < |d|
    decreases j - i, 0, 0
  {
    Opt(d, i, k) + Opt(d, k + 1, j) + d[i - 1] * d[k] * d[j]
  }

  /** The scan over k = i, .., hi - 1: the smallest candidate, and on a tie the first
      k that reached it, since a later k replaces the choice only when strictly cheaper. */
  function Best(d: seq<nat>, i: nat, j: nat, hi: nat): Choice
    requires 1 <= i < hi <= j < |d|
    decreases j - i, 0, hi
  {
    if hi == i + 1 then Choice(Candidate(d, i, j, i), i)
    else
      var c := Best(d, i, j, hi - 1);
      var x := Candidate(d, i, j, hi - 1);
      if x < c.cost then Choice(x, hi - 1) else c
  }

  /** The cost table entry m[i][j]. */
  function Opt(d: seq<nat>, i: nat, j: nat): nat
    requires 1 <= i <= j < |d|
    decreases j - i, 1, 0
  {
    if i == j then 0 else Best(d, i, j, j).cost
  }

  /** The split table entry s[i][j]. */
  function Split(d: seq<nat>, i: nat, j: nat): nat
    requires 1 <= i < j < |d|
  {
    Best(d, i, j, j).split
  }

  /** The scan keeps the lowest k among the cheapest candidates seen so far. */
  lemma {:induction false} BestIsFirstMinimum(d: seq<nat>, i: nat, j: nat, hi: nat)
    requires 1 <= i < hi <= j < |d|
    ensures i <= Best(d, i, j, hi).split < hi
    ensures Best(d, i, j, hi).cost == Candidate(d, i, j, Best(d, i, j, hi).split)
    ensures forall k | i <= k < hi :: Best(d, i, j, hi).cost <= Candidate(d, i, j, k)
    ensures forall k | i <= k < Best(d, i, j, hi).split :: Best(d, i, j, hi).cost < Candidate(d, i, j, k)
  {
    if hi > i + 1 {
      BestIsFirstMinimum(d, i, j, hi - 1);
    }
  }

  /** The recurrence the table satisfies: m[i][j] is the minimum over k in [i, j) of
      m[i][k] + m[k+1][j] + d[i-1] d[k] d[j], and s[i][j] is the lowest k attaining it. */
  lemma OptRecurrence(d: seq<nat>, i: nat, j: nat)
    requires 1 <= i < j < |d|
    ensures i <= Split(d, i, j) < j
    ensures Opt(d, i, j) == Candidate(d, i, j, Split(d, i, j))
    ensures forall k | i <= k < j :: Opt(d, i, j) <= Candidate(d, i, j, k)
    ensures forall k | i <= k < Split(d, i, j) :: Opt(d, i, j) < Candidate(d, i, j, k)
  {
    BestIsFirstMinimum(d, i, j, j);
  }

  /** Every parenthesization of A_i..A_j costs at least m[i][j]. */
  lemma {:induction false} OptIsLowerBound(d: seq<nat>, t: Tree, i: nat, j: nat)
    requires 1 <= i <= j < |d| && Spans(t, i, j)
    ensures Opt(d, i, j) <= Cost(d, t, i, j)
  {
    match t
    case Leaf(_) =>
    case Node(k, l, r) =>
      OptIsLowerBound(d, l, i, k);
      OptIsLowerBound(d, r, k + 1, j);
      OptRecurrence(d, i, j);
      assert Opt(d, i, j) <= Candidate(d, i, j, k);
  }

  /** The parenthesization the split table encodes. */
  function OptTree(d: seq<nat>, i: nat, j: nat): (t: Tree)
    requires 1 <= i <= j < |d|
    ensures Spans(t, i, j)
    decreases j - i
  {
    if i == j then Leaf(i)
    else
      OptRecurrence(d, i, j);
      var k := Split(d, i, j);
      Node(k, OptTree(d, i, k), OptTree(d, k + 1, j))
  }

  /** The split table's parenthesization costs exactly m[i][j]. */
  lemma {:induction false} OptTreeAttains(d: seq<nat>, i: nat, j: nat)
    requires 1 <= i <= j < |d|
    ensures Cost(d, OptTree(d, i, j), i, j) == Opt(d, i, j)
    decreases j - i
  {
    if i < j {
      OptRecurrence(d, i, j);
      var k := Split(d, i, j);
      OptTreeAttains(d, i, k);
      OptTreeAttains(d, k + 1, j);
    }
  }

  /** m[i][j] is the minimum cost over all parenthesizations of A_i..A_j. */
  lemma OptIsMinimum(d: seq<nat>, i: nat, j: nat)
    requires 1 <= i <= j < |d|
    ensures forall t | Spans(t, i, j) :: Opt(d, i, j) <= Cost(d, t, i, j)
    ensures exists t | Spans(t, i, j) :: Cost(d, t, i, j) == Opt(d, i, j)
  {
    forall t | Spans(t, i, j) ensures Opt(d, i, j) <= Cost(d, t, i, j) {
      OptIsLowerBound(d, t, i, j);
    }
    OptTreeAttains(d, i, j);
    var t := OptTree(d, i, j);
    assert Spans(t, i, j) && Cost(d, t, i, j) == Opt(d, i, j);
  }

  /** Strict left-to-right evaluation ((A_i A_(i+1)) A_(i+2)) .. A_j. */
  function LeftToRight(i: nat, j: nat): (t: Tree)
    requires i <= j
    ensures Spans(t, i, j)
    decreases j - i
  {
    if i == j then Leaf(i) else Node(j - 1, LeftToRight(i, j - 1), Leaf(j))
  }

  /** The number of scalar multiplications of serial left-to-right evaluation. */
  function SerialCost(d: seq<nat>): nat
    requires |d| >= 2
  {
    Cost(d, LeftToRight(1, |d| - 1), 1, |d| - 1)
  }

  /** Serial evaluation spends d[0] d[k] d[k+1] at every step k = 1 .. n-1. */
  lemma {:induction false} SerialCostSteps(d: seq<nat>, j: nat)
    requires 1 <= j < |d|
    ensures Cost(d, LeftToRight(1, j), 1, j) == SerialSum(d, j)
    decreases j
  {
    if j > 1 {
      SerialCostSteps(d, j - 1);
    }
  }

  function SerialSum(d: seq<nat>, j: nat): nat
    requires 1 <= j < |d|
  {
    if j == 1 then 0 else SerialSum(d, j - 1) + d[0] * d[j - 1] * d[j]
  }

  /** The optimum never exceeds the serial left-to-right cost. */
  lemma OptimumAtMostSerialCost(d: seq<nat>)
    requires |d| >= 2
    ensures Opt(d, 1, |d| - 1) <= SerialCost(d)
  {
    OptIsLowerBound(d, LeftToRight(1, |d| - 1), 1, |d| - 1);
  }

  /** Fills the cost table m and the split table s, both (n+1) x (n+1) and zero
      initialised, by increasing sub-chain length; for each (i, j) every split k is
      tried in increasing order and replaces the current choice only when strictly
      cheaper. */
  method ChainOrderTables(d: seq<nat>) returns (m: array2<int>, s: array2<int>)
    requires |d| >= 1
    ensures m.Length0 == |d| && m.Length1 == |d| && s.Length0 == |d| && s.Length1 == |d|
    ensures forall i, j | 1 <= i <= j < |d| :: m[i, j] == Opt(d, i, j)
    ensures forall i, j | 1 <= i < j < |d| :: s[i, j] == Split(d, i, j)
  {
    var n := |d| - 1;
    m := new int[n + 1, n + 1]((_, _) => 0);
    s := new int[n + 1, n + 1]((_, _) => 0);
    var len := 2;
    while len <= n
      invariant 2 <= len <= n + 2
      invariant Square(m, |d|) && Square(s, |d|) && m != s
      invariant CostsDone(d, m, len, 1) && SplitsDone(d, s, len, 1)
    {
      var i := 1;
      while i <= n - len + 1
        invariant 1 <= i <= n - len + 2
        invariant CostsDone(d, m, len, i) && SplitsDone(d, s, len, i)
      {
        var j := i + len - 1;
        var found := false;  // no candidate yet for (i, j)
        var k := i;
        while k <= j - 1
          invariant i <= k <= j
          invariant found <==> k > i
          invariant found ==> m[i, j] == Best(d, i, j, k).cost && s[i, j] == Best(d, i, j, k).split
          invariant CostsDone(d, m, len, i) && SplitsDone(d, s, len, i)
        {
          var cost := m[i, k] + m[k + 1, j] + d[i - 1] * d[k] * d[j];
          if !found || cost < m[i, j] {
            m[i, j] := cost;
            s[i, j] := k;
          }
          found := true;
          k := k + 1;
        }
        i := i + 1;
      }
      len := len + 1;
    }
  }

  predicate Square(a: array2<int>, size: nat)
  {
    a.Length0 == size && a.Length1 == size
  }

  /** The cost entries the planner has settled: every sub-chain shorter than len, and
      the sub-chains of length len that start before i. */
  ghost predicate CostsDone(d: seq<nat>, m: array2<int>, len: nat, i: nat)
    reads m
  {
    Square(m, |d|) &&
    forall p, q | 1 <= p <= q < |d| && (q - p + 1 < len || (q - p + 1 == len && p < i)) ::
      m[p, q] == Opt(d, p, q)
  }

  /** The split entries the planner has settled, in the same order. */
  ghost predicate SplitsDone(d: seq<nat>, s: array2<int>, len: nat, i: nat)
    reads s
  {
    Square(s, |d|) &&
    forall p, q | 1 <= p < q < |d| && (q - p + 1 < len || (q - p + 1 == len && p < i)) ::
      s[p, q] == Split(d, p, q)
  }
}
