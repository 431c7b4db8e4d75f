/**
 A whole Classic game on any board: both players place normal pieces from the last cell of the flat array to the
 first, so that the free cells stay connected and no region is ever taken.  It shows that the final score can be
 too low.
 */
module ClassicFilling {
  import opened Cells
  import opened HexBoard
  import opened ClassicFlood
  import opened ClassicRegions
  import opened ClassicRules
  import opened ClassicResults
  import opened Moves
  import opened Sets

  // ---- The cells before any position are connected ----

  /** Every cell but the first has a neighbour with a smaller position, unless the board is one cell wide. */
  lemma SmallerNeighbor(d: Dims, z: nat) returns (y: nat)
    requires d.width >= 2 && 0 < z < Size(d)
    ensures y < z && z in GraphOf(d)[y]
  {
    var x := Cell(d, z);
    var q := if x.c > 0 then Idx(x.r, x.c - 1) else Idx(x.r - 1, 0);
    if x.c == 0 {
      RowStartStep(d, x.r - 1);
    }
    assert q in Around(x) by {
      var a := Around(x);
      assert q == a[1] || q == a[2] || q == a[3];
    }
    NeighborsSpec(d, x);
    y := Flat(d, q);
    assert x in Neighbors(d, q);
    var k :| 0 <= k < |Neighbors(d, q)| && Neighbors(d, q)[k] == x;
    GraphMatches(d, q);
  }

  /** On a board that is one cell wide no cell has a neighbour. */
  lemma NarrowBoard(d: Dims, z: nat)
    requires d.width == 1 && z < Size(d)
    ensures GraphOf(d)[z] == []
  {
    var x := Cell(d, z);
    NeighborsSpec(d, x);
    if Neighbors(d, x) != [] {
      assert Neighbors(d, x)[0] in Neighbors(d, x);
      NothingAround(d, x, Neighbors(d, x)[0]);
    }
    GraphMatches(d, x);
  }

  lemma NothingAround(d: Dims, x: Idx, y: Idx)
    requires d.width == 1 && OnBoard(d, x) && y in Around(x)
    ensures !OnBoard(d, y)
  {
    AroundRows(x, y);
    if OnBoard(d, y) {
      OneCellWide(d, x);
      OneCellWide(d, y);
      assert false;
    }
  }

  lemma AroundRows(x: Idx, y: Idx)
    requires y in Around(x)
    ensures y.r == x.r - 1 || y.r == x.r + 1 || (y.r == x.r && (y.c == x.c - 1 || y.c == x.c + 1))
  {
    var a := Around(x);
    assert y == a[0] || y == a[1] || y == a[2] || y == a[3] || y == a[4] || y == a[5];
  }

  lemma OneCellWide(d: Dims, x: Idx)
    requires d.width == 1 && OnBoard(d, x)
    ensures x.c == 0 && x.r % 2 == 0
  {
  }

  /** Exactly the first n cells are free. */
  predicate FreeBelow(cells: seq<Field>, n: nat)
  {
    forall z :: 0 <= z < |cells| ==> (cells[z].Occupied() <==> z >= n)
  }

  lemma {:induction false} FreeCellsConnected(d: Dims, cells: seq<Field>, n: nat, z: nat)
    requires d.width >= 2 && |cells| == Size(d) && FreeBelow(cells, n) && z < n <= Size(d)
    ensures z in Region(GraphOf(d), cells, 0)
  {
    GraphIsRegular(d);
    if z == 0 {
      RegionSelf(GraphOf(d), cells, 0);
    } else {
      var y := SmallerNeighbor(d, z);
      FreeCellsConnected(d, cells, n, y);
      RegionStep(GraphOf(d), cells, 0, y, z);
    }
  }

  lemma RegionIsFirstOrEmpty(d: Dims, cells: seq<Field>, n: nat, z: nat)
    requires d.width >= 2 && |cells| == Size(d) && FreeBelow(cells, n) && n <= Size(d) && z < Size(d)
    ensures Region(GraphOf(d), cells, z) == {} || Region(GraphOf(d), cells, z) == Region(GraphOf(d), cells, 0)
  {
    GraphIsRegular(d);
    if z < n {
      FreeCellsConnected(d, cells, n, z);
      RegionOfMember(GraphOf(d), cells, 0, z);
    } else {
      RegionOfOccupied(GraphOf(d), cells, z);
    }
  }

  /** So there are never two regions to choose from. */
  lemma OneCandidate(d: Dims, cells: seq<Field>, n: nat, x: nat)
    requires |cells| == Size(d) && FreeBelow(cells, n) && n <= Size(d) && x < Size(d)
    ensures |Candidates(GraphOf(d), cells, GraphOf(d)[x], |GraphOf(d)[x]|)| <= 1
  {
    var g := GraphOf(d);
    var all := Candidates(g, cells, g[x], |g[x]|);
    GraphIsRegular(d);
    if d.width == 1 {
      NarrowBoard(d, x);
    } else {
      forall R | R in all
        ensures R in {Region(g, cells, 0)}
      {
        var k :| 0 <= k < |g[x]| && R == Region(g, cells, g[x][k]) && Candidate(g, cells, R);
        RegionIsFirstOrEmpty(d, cells, n, g[x][k]);
      }
      SubsetSize(all, {Region(g, cells, 0)});
    }
  }

  // ---- The game after k moves ----

  /** The number of moves at the last reveal: the fourth move since then reveals the board. */
  function LastReveal(k: nat): (l: nat)
    ensures l <= k
    decreases k, 0
  {
    if k == 0 then 0 else if FourthMove(k - 1) then k else LastReveal(k - 1)
  }

  predicate FourthMove(k: nat)
    decreases k, 1
  {
    k + 1 - LastReveal(k) == 4
  }

  lemma {:induction false} FourthMoveIff(k: nat)
    ensures LastReveal(k) == k - k % 4
    ensures FourthMove(k) <==> (k + 1) % 4 == 0
  {
    if k > 0 {
      FourthMoveIff(k - 1);
    }
  }

  function Mover(k: nat): (p: int)
    ensures IsPlayer(p)
  {
    if k == 0 then 1 else 3 - Mover(k - 1)
  }

  /** The piece of move j, counted from 0, after k moves: hidden unless the board has been revealed since. */
  function Piece(j: nat, k: nat): Field
  {
    EMPTY.(owner := Mover(j), hidden := j >= LastReveal(k), lifetime := -1)
  }

  function FilledCell(n: nat, k: nat, z: nat): Field
    requires z < n
  {
    if z < n - k then EMPTY else Piece(n - 1 - z, k)
  }

  function FilledCells(n: nat, k: nat): (cells: seq<Field>)
    requires k <= n
    ensures |cells| == n && FreeBelow(cells, n - k)
    ensures forall z :: 0 <= z < n ==> cells[z] == FilledCell(n, k, z)
  {
    seq(n, z requires 0 <= z < n => FilledCell(n, k, z))
  }

  ghost function VisibleScore(cells: seq<Field>): Two<int>
  {
    Two(|Visible(cells, 1)|, |Visible(cells, 2)|)
  }

  ghost function AfterMoves(d: Dims, k: nat): Game
    requires k <= Size(d)
  {
    var cells := FilledCells(Size(d), k);
    Game(cells, Mover(k), k, LastReveal(k), VisibleScore(cells), NewGame(d).pieces, Running)
  }

  function FillMove(d: Dims, k: nat): FlatMove
    requires k < Size(d)
  {
    FlatMove(Mover(k), k, Size(d) - 1 - k, Normal)
  }

  lemma NoMovesYet(d: Dims)
    ensures AfterMoves(d, 0) == NewGame(d)
  {
    var cells := FilledCells(Size(d), 0);
    assert cells == NewGame(d).cells;
    assert Visible(cells, 1) == {} && Visible(cells, 2) == {};
  }

  /** The board right after the piece of move k is placed. */
  function PlacedCells(n: nat, k: nat): (cells: seq<Field>)
    requires k < n
    ensures |cells| == n && FreeBelow(cells, n - k - 1)
  {
    FilledCells(n, k)[n - 1 - k := PlacedPiece(EMPTY, Mover(k), Normal)]
  }

  lemma FillPlaces(d: Dims, k: nat)
    requires k < Size(d)
    ensures Legal(AfterMoves(d, k), FillMove(d, k))
    ensures Placement(GraphOf(d), AfterMoves(d, k), FillMove(d, k), PlacedCells(Size(d), k), 1)
    ensures Reveals(AfterMoves(d, k), FillMove(d, k), 1) <==> FourthMove(k)
  {
    OneCandidate(d, PlacedCells(Size(d), k), Size(d) - k - 1, Size(d) - 1 - k);
  }

  /** Nothing but normal pieces. */
  predicate Plain(cells: seq<Field>)
  {
    forall z :: 0 <= z < |cells| ==>
      cells[z].typ == Normal && cells[z].lifetime == if cells[z].owner > 0 then -1 else 0
  }

  /** Revealing a plain board does nothing but unhide its pieces. */
  lemma RevealPlain(g: Graph, before: seq<Field>, after: seq<Field>)
    requires |before| == |g| && Plain(before) && AllRevealed(before, after)
    ensures RevealStep(g, before, after)
  {
    assert PestStep(g, after, after);
    assert AllAged(after, after);
  }

  lemma PlacedIsNext(n: nat, k: nat, z: nat)
    requires k < n && z < n
    ensures FilledCell(n, k + 1, z) == PlacedCells(n, k)[z].(hidden := PlacedCells(n, k)[z].hidden && !FourthMove(k))
  {
    assert z != n - 1 - k ==> PlacedCells(n, k)[z] == FilledCell(n, k, z);
  }

  /** The board after the next move: revealed if the move is a fourth one. */
  lemma NextBoard(g: Graph, n: nat, k: nat)
    requires k < n == |g|
    ensures if FourthMove(k) then RevealStep(g, PlacedCells(n, k), FilledCells(n, k + 1))
            else FilledCells(n, k + 1) == PlacedCells(n, k)
  {
    var placed, next := PlacedCells(n, k), FilledCells(n, k + 1);
    forall z | 0 <= z < n
      ensures next[z] == placed[z].(hidden := placed[z].hidden && !FourthMove(k))
    {
      PlacedIsNext(n, k, z);
    }
    if FourthMove(k) {
      RevealPlain(g, placed, next);
    } else {
      assert next == placed;
    }
  }

  lemma FillStep(d: Dims, k: nat)
    requires k + 1 < Size(d)
    ensures Legal(AfterMoves(d, k), FillMove(d, k))
    ensures Step(GraphOf(d), AfterMoves(d, k), FillMove(d, k), AfterMoves(d, k + 1))
  {
    var s, m, t := AfterMoves(d, k), FillMove(d, k), AfterMoves(d, k + 1);
    FillPlaces(d, k);
    NextBoard(GraphOf(d), Size(d), k);
    assert !t.cells[0].Occupied();
    assert Concluded(GraphOf(d), s, m, PlacedCells(Size(d), k), 1, t.cells, t);
  }

  /** The game after the last move, if that is not a fourth one. */
  ghost function AfterLast(d: Dims): (t: Game)
    requires Size(d) > 0
    ensures t.state == Finished
  {
    var s, placed := AfterMoves(d, Size(d) - 1), PlacedCells(Size(d), Size(d) - 1);
    var shown := seq(Size(d), z requires 0 <= z < Size(d) => placed[z].(hidden := false));
    Game(shown, 3 - s.turn, Size(d), s.lastRevealed, VisibleScore(placed), s.pieces, Finished)
  }

  lemma LastConcludes(d: Dims)
    requires Size(d) > 0 && !FourthMove(Size(d) - 1)
    ensures var s, m := AfterMoves(d, Size(d) - 1), FillMove(d, Size(d) - 1);
            Legal(s, m) && Concluded(GraphOf(d), s, m, PlacedCells(Size(d), Size(d) - 1), 1,
                                     PlacedCells(Size(d), Size(d) - 1), AfterLast(d))
  {
    var placed := PlacedCells(Size(d), Size(d) - 1);
    FillPlaces(d, Size(d) - 1);
    assert Scored(placed, Running, AfterLast(d).cells, AfterLast(d).score, Finished);
  }

  /** The last move does not reveal the board before the score is counted. */
  lemma LastStep(d: Dims)
    requires Size(d) > 0 && !FourthMove(Size(d) - 1)
    ensures var s, m, t := AfterMoves(d, Size(d) - 1), FillMove(d, Size(d) - 1), AfterLast(d);
            Legal(s, m) && Step(GraphOf(d), s, m, t) && t.score.At(s.turn) != |OwnedBy(t.cells, s.turn)|
  {
    var s, m, placed := AfterMoves(d, Size(d) - 1), FillMove(d, Size(d) - 1), PlacedCells(Size(d), Size(d) - 1);
    FillPlaces(d, Size(d) - 1);
    LastConcludes(d);
    ScoreWithoutReveal(GraphOf(d), s, m, placed, 1, AfterLast(d));
  }

  // ---- The run ----

  /** All states of the game, and all its moves. */
  ghost function AllStates(d: Dims): (states: seq<Game>)
    requires Size(d) > 0
    ensures |states| == Size(d) + 1 && states[Size(d)] == AfterLast(d)
    ensures forall k :: 0 <= k < Size(d) ==> states[k] == AfterMoves(d, k)
  {
    seq(Size(d), k requires 0 <= k < Size(d) => AfterMoves(d, k)) + [AfterLast(d)]
  }

  function AllMoves(d: Dims): (moves: seq<FlatMove>)
    ensures |moves| == Size(d) && forall k :: 0 <= k < Size(d) ==> moves[k] == FillMove(d, k)
  {
    seq(Size(d), k requires 0 <= k < Size(d) => FillMove(d, k))
  }

  lemma AllPlayed(d: Dims, k: nat)
    requires Size(d) % 4 != 0 && k < Size(d)
    ensures Played(d, AllStates(d), AllMoves(d), k)
  {
    if k + 1 < Size(d) {
      FillStep(d, k);
    } else {
      FourthMoveIff(k);
      LastStep(d);
    }
  }

  /** On every board whose number of cells is not a multiple of four - the program's has 105 - a game can end
      with a score that is not the number of cells its last mover owns. */
  lemma FinalScoreCanBeLow(d: Dims) returns (states: seq<Game>, moves: seq<FlatMove>, mover: int)
    requires Size(d) % 4 != 0
    ensures IsGame(d, states, moves) && moves != [] && mover == moves[|moves| - 1].player
    ensures var t := states[|moves|];
            t.state == Finished && t.score.At(mover) != |OwnedBy(t.cells, mover)|
  {
    states, moves := AllStates(d), AllMoves(d);
    mover := moves[Size(d) - 1].player;
    NoMovesYet(d);
    forall k: nat | k < |moves|
      ensures Played(d, states, moves, k)
    {
      AllPlayed(d, k);
    }
    FourthMoveIff(Size(d) - 1);
    LastStep(d);
  }
}
