/**
 The hex board of hexz/engine.go: rows of alternating width stored in one flat
 array, and the six-neighbour relation.  Everything is parametric in the number
 of rows and in the width of the first row; the program uses 11 and 10.

 The rules are stated over the flat graph `Graph(d)`, so the products needed to
 place row r inside the flat array never leave this module.
 */
module HexBoard {

  datatype RawDims = Dims(rows: nat, width: nat)

  type Dims = d: RawDims | 1 <= d.width witness Dims(11, 10)

  /** numBoardRows and numFieldsFirstRow. */
  const STANDARD: Dims := Dims(11, 10)

  datatype Idx = Idx(r: int, c: int)

  function Width(d: Dims, r: nat): nat
  {
    d.width - r % 2
  }

  /** Position in the flat array of the first cell of row r. */
  function RowStart(d: Dims, r: nat): (k: nat)
  {
    if r == 0 then 0 else RowStart(d, r - 1) + Width(d, r - 1)
  }

  function Size(d: Dims): nat
  {
    RowStart(d, d.rows)
  }

  predicate OnBoard(d: Dims, x: Idx)
  {
    0 <= x.r < d.rows && 0 <= x.c < Width(d, x.r)
  }

  // ---- Rows partition the flat array ----

  lemma RowStartStep(d: Dims, r: nat)
    ensures RowStart(d, r + 1) == RowStart(d, r) + Width(d, r)
  {
  }

  lemma MulNext(w: int, k: int)
    ensures w * (k + 1) == w * k + w
  {
  }

  /** The closed form behind the constant numFields of the program. */
  lemma {:induction false} RowStartFormula(d: Dims, r: nat)
    ensures RowStart(d, r) == d.width * ((r + 1) / 2) + (d.width - 1) * (r / 2)
  {
    if r > 0 {
      RowStartFormula(d, r - 1);
      if r % 2 == 0 {
        assert r / 2 == (r - 1) / 2 + 1 && (r + 1) / 2 == (r - 1 + 1) / 2;
        MulNext(d.width - 1, (r - 1) / 2);
      } else {
        assert r / 2 == (r - 1) / 2 && (r + 1) / 2 == (r - 1 + 1) / 2 + 1;
        MulNext(d.width, (r - 1 + 1) / 2);
      }
    }
  }

  /** The program's board has 105 cells. */
  lemma StandardSize()
    ensures Size(STANDARD) == 105
  {
    RowStartFormula(STANDARD, 11);
  }

  lemma {:induction false} RowStartMonotone(d: Dims, r: nat, q: nat)
    requires r <= q
    ensures RowStart(d, r) <= RowStart(d, q)
    decreases q
  {
    if r < q {
      RowStartMonotone(d, r, q - 1);
      RowStartStep(d, q - 1);
    }
  }

  lemma RowInRange(d: Dims, x: Idx)
    requires OnBoard(d, x)
    ensures 0 <= RowStart(d, x.r) && RowStart(d, x.r) + x.c < Size(d)
  {
    RowStartMonotone(d, 0, x.r);
    RowStartStep(d, x.r);
    RowStartMonotone(d, x.r + 1, d.rows);
  }

  /** Position of a cell in the flat array. */
  function Flat(d: Dims, x: Idx): (i: nat)
    requires OnBoard(d, x)
    ensures i < Size(d)
  {
    RowInRange(d, x);
    RowStart(d, x.r) + x.c
  }

  /** Distinct cells have distinct positions. */
  lemma FlatInjective(d: Dims, x: Idx, y: Idx)
    requires OnBoard(d, x) && OnBoard(d, y) && Flat(d, x) == Flat(d, y)
    ensures x == y
  {
    if x.r < y.r {
      RowStartStep(d, x.r);
      RowStartMonotone(d, x.r + 1, y.r);
    } else if y.r < x.r {
      RowStartStep(d, y.r);
      RowStartMonotone(d, y.r + 1, x.r);
    }
  }

  /** The row that holds flat position i, searched downwards from row r. */
  function RowOf(d: Dims, i: nat, r: nat): (q: nat)
    requires i < RowStart(d, r)
    ensures q < r && RowStart(d, q) <= i < RowStart(d, q) + Width(d, q)
  {
    RowStartStep(d, if r == 0 then 0 else r - 1);
    if RowStart(d, r - 1) <= i then r - 1 else RowOf(d, i, r - 1)
  }

  /** Every flat position is the position of a cell: the inverse of Flat. */
  function Cell(d: Dims, i: nat): (x: Idx)
    requires i < Size(d)
    ensures OnBoard(d, x) && Flat(d, x) == i
  {
    var r := RowOf(d, i, d.rows);
    Idx(r, i - RowStart(d, r))
  }

  // ---- Neighbours ----

  /** The six surrounding positions, in the order in which the program visits them. */
  function Around(x: Idx): (ns: seq<Idx>)
    ensures |ns| == 6
  {
    var shift := x.r % 2;
    [ Idx(x.r, x.c + 1), Idx(x.r - 1, x.c + shift), Idx(x.r - 1, x.c - 1 + shift),
      Idx(x.r, x.c - 1), Idx(x.r + 1, x.c - 1 + shift), Idx(x.r + 1, x.c + shift) ]
  }

  function Keep(d: Dims, ns: seq<Idx>): seq<Idx>
  {
    if ns == [] then []
    else Keep(d, ns[..|ns| - 1]) + (if OnBoard(d, ns[|ns| - 1]) then [ns[|ns| - 1]] else [])
  }

  function Neighbors(d: Dims, x: Idx): seq<Idx>
  {
    Keep(d, Around(x))
  }

  predicate Distinct<T(==)>(s: seq<T>)
  {
    forall i, j :: 0 <= i < j < |s| ==> s[i] != s[j]
  }

  lemma {:induction false} KeepIsFilter(d: Dims, ns: seq<Idx>)
    requires Distinct(ns)
    ensures forall y :: y in Keep(d, ns) <==> y in ns && OnBoard(d, y)
    ensures Distinct(Keep(d, ns)) && |Keep(d, ns)| <= |ns|
  {
    if ns != [] {
      var init, last := ns[..|ns| - 1], ns[|ns| - 1];
      KeepIsFilter(d, init);
      assert ns == init + [last];
      assert last !in init;
    }
  }

  lemma AroundDistinct(x: Idx)
    ensures Distinct(Around(x)) && x !in Around(x)
  {
  }

  lemma AroundSymmetric(x: Idx, y: Idx)
    requires y in Around(x)
    ensures x in Around(y)
  {
    var a, b := Around(x), Around(y);
    assert y == a[0] || y == a[1] || y == a[2] || y == a[3] || y == a[4] || y == a[5];
    assert x == b[0] || x == b[1] || x == b[2] || x == b[3] || x == b[4] || x == b[5];
  }

  /** Neighbour lists are on the board, free of duplicates and of the cell itself, and symmetric. */
  lemma NeighborsSpec(d: Dims, x: Idx)
    ensures Distinct(Neighbors(d, x)) && |Neighbors(d, x)| <= 6
    ensures forall y :: y in Neighbors(d, x) <==> y in Around(x) && OnBoard(d, y)
    ensures x !in Neighbors(d, x)
    ensures OnBoard(d, x) ==> forall y :: y in Neighbors(d, x) ==> x in Neighbors(d, y)
  {
    AroundDistinct(x);
    KeepIsFilter(d, Around(x));
    forall y | y in Neighbors(d, x) && OnBoard(d, x)
      ensures x in Neighbors(d, y)
    {
      AroundSymmetric(x, y);
      AroundDistinct(y);
      KeepIsFilter(d, Around(y));
    }
  }

  // ---- Neighbours by position on the plane ----

  /** The steps from a cell to the six around it, in half cells to the right and rows downwards, in the order in
      which the program visits them; every second row is shifted to the right by half a cell. */
  predicate StepFrom(x: Idx, y: Idx, k: nat)
  {
    var right, down := (2 * y.c + y.r % 2) - (2 * x.c + x.r % 2), y.r - x.r;
    match k
    case 0 => right == 2 && down == 0
    case 1 => right == 1 && down == -1
    case 2 => right == -1 && down == -1
    case 3 => right == -2 && down == 0
    case 4 => right == -1 && down == 1
    case 5 => right == 1 && down == 1
    case _ => false
  }

  /** Hexagons that share an edge: their centres are one cell apart in a row, or half a cell in adjacent rows. */
  predicate Adjacent(x: Idx, y: Idx)
  {
    var right, down := (2 * y.c + y.r % 2) - (2 * x.c + x.r % 2), y.r - x.r;
    || (down == 0 && (right == 2 || right == -2))
    || ((down == 1 || down == -1) && (right == 1 || right == -1))
  }

  lemma AroundSteps(x: Idx, k: nat)
    requires k < 6
    ensures StepFrom(x, Around(x)[k], k)
  {
  }

  lemma StepIsUnique(x: Idx, y: Idx, k: nat)
    requires StepFrom(x, y, k)
    ensures k < 6 && y == Around(x)[k]
  {
    AroundSteps(x, k);
    SamePlace(y, Around(x)[k]);
  }

  /** A row and a place on the plane determine the cell. */
  lemma SamePlace(x: Idx, y: Idx)
    requires x.r == y.r && 2 * x.c + x.r % 2 == 2 * y.c + y.r % 2
    ensures x == y
  {
  }

  lemma AroundIsAdjacent(x: Idx, y: Idx)
    ensures y in Around(x) <==> Adjacent(x, y)
  {
    var a := Around(x);
    if y in a {
      var k: nat :| k < 6 && a[k] == y;
      AroundSteps(x, k);
    }
    if Adjacent(x, y) {
      assert StepFrom(x, y, 0) || StepFrom(x, y, 1) || StepFrom(x, y, 2)
          || StepFrom(x, y, 3) || StepFrom(x, y, 4) || StepFrom(x, y, 5);
      var k: nat :| StepFrom(x, y, k);
      StepIsUnique(x, y, k);
    }
  }

  /** The neighbours of a cell are the cells of the board that share an edge with it. */
  lemma NeighborsAreAdjacent(d: Dims, x: Idx)
    ensures forall y :: y in Neighbors(d, x) <==> OnBoard(d, y) && Adjacent(x, y)
  {
    AroundDistinct(x);
    KeepIsFilter(d, Around(x));
    forall y
      ensures y in Around(x) <==> Adjacent(x, y)
    {
      AroundIsAdjacent(x, y);
    }
  }

  /** Two neighbours are listed in the order of the steps that lead to them. */
  ghost predicate InStepOrder(x: Idx, y: Idx, z: Idx)
  {
    exists a, b :: a < b && StepFrom(x, y, a) && StepFrom(x, z, b)
  }

  lemma {:induction false} KeepIsOrdered(d: Dims, x: Idx, n: nat, i: nat, j: nat)
    requires n <= 6 && i < j < |Keep(d, Around(x)[..n])|
    ensures InStepOrder(x, Keep(d, Around(x)[..n])[i], Keep(d, Around(x)[..n])[j])
    decreases n
  {
    var a := Around(x);
    var kept := Keep(d, a[..n - 1]);
    assert a[..n][..n - 1] == a[..n - 1];
    if j < |kept| {
      KeepIsOrdered(d, x, n - 1, i, j);
    } else {
      var k := KeptFrom(d, a[..n - 1], i);
      AroundSteps(x, k);
      AroundSteps(x, n - 1);
    }
  }

  lemma {:induction false} KeptFrom(d: Dims, ns: seq<Idx>, i: nat) returns (k: nat)
    requires i < |Keep(d, ns)|
    ensures k < |ns| && Keep(d, ns)[i] == ns[k]
  {
    var n := |ns| - 1;
    if i < |Keep(d, ns[..n])| {
      k := KeptFrom(d, ns[..n], i);
    } else {
      k := n;
    }
  }

  /** The order of the neighbour list, which decides between regions of equal size in Classic. */
  lemma NeighborsAreOrdered(d: Dims, x: Idx, i: nat, j: nat)
    requires i < j < |Neighbors(d, x)|
    ensures InStepOrder(x, Neighbors(d, x)[i], Neighbors(d, x)[j])
  {
    assert Around(x)[..6] == Around(x);
    KeepIsOrdered(d, x, 6, i, j);
  }

  // ---- The flat neighbour graph ----

  type Graph = seq<seq<nat>>

  /** Neighbour lists stay inside the graph and leave the cell itself out. */
  ghost predicate Regular(g: Graph)
  {
    forall x, j :: 0 <= x < |g| && 0 <= j < |g[x]| ==> g[x][j] < |g| && g[x][j] != x
  }

  /** The j-th neighbour of x lists x in turn. */
  ghost predicate Mutual(g: Graph, x: nat, j: nat)
  {
    x < |g| && j < |g[x]| ==> g[x][j] < |g| && x in g[g[x][j]]
  }

  ghost predicate Symmetric(g: Graph)
  {
    forall x: nat, j: nat {:trigger Mutual(g, x, j)} :: Mutual(g, x, j)
  }

  ghost predicate Simple(g: Graph)
  {
    forall x :: 0 <= x < |g| ==> Distinct(g[x])
  }

  function FlatAll(d: Dims, ns: seq<Idx>): (r: seq<nat>)
    requires forall y :: y in ns ==> OnBoard(d, y)
    ensures |r| == |ns|
    ensures forall j :: 0 <= j < |ns| ==> r[j] == Flat(d, ns[j])
  {
    seq(|ns|, j requires 0 <= j < |ns| =>
      assert ns[j] in ns; Flat(d, ns[j]))
  }

  /** Neighbours of a flat position, as flat positions. */
  function FlatNeighbors(d: Dims, i: nat): (r: seq<nat>)
    requires i < Size(d)
  {
    NeighborsSpec(d, Cell(d, i));
    FlatAll(d, Neighbors(d, Cell(d, i)))
  }

  function GraphUpTo(d: Dims, n: nat): (g: Graph)
    requires n <= Size(d)
    ensures |g| == n
    ensures forall i {:trigger FlatNeighbors(d, i)} :: 0 <= i < n ==> g[i] == FlatNeighbors(d, i)
  {
    if n == 0 then [] else GraphUpTo(d, n - 1) + [FlatNeighbors(d, n - 1)]
  }

  /** The neighbour lists of all cells of the board. */
  function GraphOf(d: Dims): (g: Graph)
    ensures |g| == Size(d)
  {
    GraphUpTo(d, Size(d))
  }

  /** The cell a flat neighbour stands for is a neighbour of the cell it is listed under. */
  lemma FlatNeighborsSpec(d: Dims, i: nat, j: nat)
    requires i < Size(d) && j < |FlatNeighbors(d, i)|
    ensures |Neighbors(d, Cell(d, i))| == |FlatNeighbors(d, i)|
    ensures OnBoard(d, Neighbors(d, Cell(d, i))[j])
    ensures FlatNeighbors(d, i)[j] == Flat(d, Neighbors(d, Cell(d, i))[j])
    ensures FlatNeighbors(d, i)[j] < Size(d)
    ensures Cell(d, FlatNeighbors(d, i)[j]) == Neighbors(d, Cell(d, i))[j]
  {
    var x := Cell(d, i);
    NeighborsSpec(d, x);
    var y := Neighbors(d, x)[j];
    assert y in Neighbors(d, x);
    FlatInjective(d, Cell(d, Flat(d, y)), y);
  }

  lemma FlatNeighborsSymmetric(d: Dims, i: nat, j: nat)
    requires i < Size(d) && j < |FlatNeighbors(d, i)|
    ensures FlatNeighbors(d, i)[j] < Size(d)
    ensures FlatNeighbors(d, i)[j] != i
    ensures i in FlatNeighbors(d, FlatNeighbors(d, i)[j])
  {
    FlatNeighborsSpec(d, i, j);
    var x, k := Cell(d, i), FlatNeighbors(d, i)[j];
    var y := Neighbors(d, x)[j];
    NeighborsSpec(d, x);
    assert y in Neighbors(d, x);
    var m :| 0 <= m < |Neighbors(d, y)| && Neighbors(d, y)[m] == x;
    NeighborsSpec(d, Cell(d, k));
    assert |FlatNeighbors(d, k)| == |Neighbors(d, y)|;
    FlatNeighborsSpec(d, k, m);
    assert FlatNeighbors(d, k)[m] == i;
  }

  lemma FlatNeighborsDistinct(d: Dims, i: nat)
    requires i < Size(d)
    ensures Distinct(FlatNeighbors(d, i))
  {
    var ns, fs := Neighbors(d, Cell(d, i)), FlatNeighbors(d, i);
    NeighborsSpec(d, Cell(d, i));
    forall a, b | 0 <= a < b < |fs|
      ensures fs[a] != fs[b]
    {
      FlatNeighborsSpec(d, i, a);
      FlatNeighborsSpec(d, i, b);
      assert ns[a] != ns[b];
    }
  }

  /** The board of any size is a symmetric graph without loops or double edges. */
  lemma GraphIsRegular(d: Dims)
    ensures Regular(GraphOf(d)) && Symmetric(GraphOf(d)) && Simple(GraphOf(d))
  {
    var g := GraphOf(d);
    forall x: nat, j: nat | x < |g| && j < |g[x]|
      ensures g[x][j] < |g| && g[x][j] != x && Mutual(g, x, j)
    {
      assert g[x] == FlatNeighbors(d, x);
      FlatNeighborsSymmetric(d, x, j);
      assert g[g[x][j]] == FlatNeighbors(d, g[x][j]);
    }
    forall x | 0 <= x < |g|
      ensures Distinct(g[x])
    {
      assert g[x] == FlatNeighbors(d, x);
      FlatNeighborsDistinct(d, x);
    }
  }

  /** Neighbour k of cell x, looked up in the flat graph. */
  lemma GraphMatches(d: Dims, x: Idx)
    requires OnBoard(d, x)
    ensures Flat(d, x) < |GraphOf(d)|
    ensures |GraphOf(d)[Flat(d, x)]| == |Neighbors(d, x)| <= 6
    ensures forall k :: 0 <= k < |Neighbors(d, x)| ==>
              OnBoard(d, Neighbors(d, x)[k]) && GraphOf(d)[Flat(d, x)][k] == Flat(d, Neighbors(d, x)[k])
  {
    var i := Flat(d, x);
    FlatInjective(d, Cell(d, i), x);
    assert GraphOf(d)[i] == FlatNeighbors(d, i);
    NeighborsSpec(d, x);
    forall k | 0 <= k < |Neighbors(d, x)|
      ensures OnBoard(d, Neighbors(d, x)[k]) && GraphOf(d)[i][k] == Flat(d, Neighbors(d, x)[k])
    {
      FlatNeighborsSpec(d, i, k);
    }
  }

  /** Two places of the flat array are neighbours exactly if their cells share an edge. */
  lemma GraphIsAdjacency(d: Dims, i: nat, z: nat)
    requires i < Size(d) && z < Size(d)
    ensures z in GraphOf(d)[i] <==> Adjacent(Cell(d, i), Cell(d, z))
  {
    var x, y := Cell(d, i), Cell(d, z);
    GraphMatches(d, x);
    NeighborsAreAdjacent(d, x);
    var ns, fs := Neighbors(d, x), GraphOf(d)[i];
    if z in fs {
      var k :| 0 <= k < |fs| && fs[k] == z;
      FlatInjective(d, y, ns[k]);
      assert ns[k] in ns;
    }
    if Adjacent(x, y) {
      var k :| 0 <= k < |ns| && ns[k] == y;
      assert fs[k] == z;
    }
  }

  /** Board.neighbors: fills the caller's buffer, writing each candidate before testing it. */
  method FillNeighbors(d: Dims, x: Idx, ns: array<Idx>) returns (k: nat)
    requires ns.Length >= 6
    modifies ns
    ensures k == |Neighbors(d, x)| <= 6
    ensures ns[..k] == Neighbors(d, x)
    ensures forall y :: y in ns[..k] <==> OnBoard(d, y) && Adjacent(x, y)
    ensures forall i, j :: 0 <= i < j < k ==> InStepOrder(x, ns[i], ns[j])
  {
    k := 0;
    var around := Around(x);
    for j := 0 to 6
      invariant k <= j
      invariant ns[..k] == Keep(d, around[..j])
    {
      ns[k] := around[j];
      assert around[..j + 1][..j] == around[..j];
      if OnBoard(d, ns[k]) {
        k := k + 1;
      }
    }
    assert around[..6] == around;
    NeighborsAreAdjacent(d, x);
    forall i, j | 0 <= i < j < k
      ensures InStepOrder(x, ns[i], ns[j])
    {
      NeighborsAreOrdered(d, x, i, j);
      assert ns[..k][i] == ns[i] && ns[..k][j] == ns[j];
    }
  }
}
