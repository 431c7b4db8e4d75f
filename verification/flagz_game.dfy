/**
 Whole-game results for Flagz: the invariant of reachable states, what one accepted
 move does, progress, termination, and soundness of finishing early.
 */
module FlagzGame {
  import opened Cells
  import opened HexBoard
  import opened FlagzRules
  import opened FlagzSpread
  import opened FlagzCaches
  import opened Moves
  import opened Sets

  // ---- Caches against recomputation ----

  /** Values of the cells around z that player p owns. */
  ghost function NeighborValues(g: Graph, cells: seq<Field>, z: nat, p: int): set<int>
    requires Regular(g) && |cells| == |g| && z < |g|
  {
    set j | 0 <= j < |g[z]| && cells[g[z][j]].owner == p :: cells[g[z][j]].value
  }

  /** The value a piece gets next to cells of these values: none yet, blocked by the maximum of 5, or 1 + the
      minimum. */
  ghost predicate IsNextVal(vals: set<int>, nv: int)
  {
    if 5 in vals then nv == -1
    else if vals == {} then nv == 0
    else nv - 1 in vals && forall v :: v in vals ==> nv <= v + 1
  }

  ghost predicate CachesFresh(g: Graph, cells: seq<Field>)
    requires Regular(g) && |cells| == |g|
  {
    forall z: nat, p :: z < |g| && IsPlayer(p) && !cells[z].Occupied()
                        ==> IsNextVal(NeighborValues(g, cells, z, p), cells[z].nextVal.At(p))
  }

  /** No grass cell borders an owned cell of equal or greater value. */
  ghost predicate GrassOutOfReach(g: Graph, cells: seq<Field>)
    requires Regular(g) && |cells| == |g|
  {
    forall y, j :: 0 <= y < |g| && 0 <= j < |g[y]| && IsPlayer(cells[y].owner) && cells[g[y][j]].typ == Grass ==>
      cells[g[y][j]].value > cells[y].value
  }

  lemma ValuesInRange(g: Graph, cells: seq<Field>, z: nat, p: int)
    requires Regular(g) && |cells| == |g| && CellsOk(cells) && z < |g|
    ensures forall v :: v in NeighborValues(g, cells, z, p) ==> 0 <= v <= MAX_VALUE
  {
    forall v | v in NeighborValues(g, cells, z, p)
      ensures 0 <= v <= MAX_VALUE
    {
      var j :| 0 <= j < |g[z]| && cells[g[z][j]].owner == p && cells[g[z][j]].value == v;
      assert CellOk(cells[g[z][j]]);
    }
  }

  lemma FreshAt(g: Graph, cells: seq<Field>, z: nat, p: int)
    requires Regular(g) && Symmetric(g) && |cells| == |g| && CellsOk(cells)
    requires z < |g| && IsPlayer(p) && !cells[z].Occupied()
    requires AllSettled(g, cells) && ExplainedFor(g, cells, z, p)
    ensures IsNextVal(NeighborValues(g, cells, z, p), cells[z].nextVal.At(p))
  {
    var vals, nv := NeighborValues(g, cells, z, p), cells[z].nextVal.At(p);
    assert CellOk(cells[z]);
    forall v | v in vals
      ensures nv == -1 || (v < MAX_VALUE && 1 <= nv <= v + 1)
    {
      var j :| 0 <= j < |g[z]| && cells[g[z][j]].owner == p && cells[g[z][j]].value == v;
      var k := ReasonAt(g, z, j);
      assert Settled(cells[g[z][j]], cells[g[g[z][j]][k]]);
    }
    if nv != 0 {
      var j :| 0 <= j < |g[z]| && Explains(cells[g[z][j]], cells[z], p);
      assert cells[g[z][j]].value in vals;
    }
  }

  lemma SettledAt(g: Graph, cells: seq<Field>, y: nat, j: nat)
    requires Regular(g) && Symmetric(g) && |cells| == |g| && CellsOk(cells)
    requires y < |g| && j < |g[y]| && Owned(cells[y])
    requires CachesFresh(g, cells) && GrassOutOfReach(g, cells)
    ensures Settled(cells[y], cells[g[y][j]])
  {
    var z, p := g[y][j], cells[y].owner;
    assert CellOk(cells[y]) && CellOk(cells[z]);
    if !cells[z].Occupied() {
      var k := ReasonAt(g, y, j);
      ValuesInRange(g, cells, z, p);
      assert IsNextVal(NeighborValues(g, cells, z, p), cells[z].nextVal.At(p));
      assert cells[g[z][k]].value in NeighborValues(g, cells, z, p);
    }
  }

  lemma ExplainedAt(g: Graph, cells: seq<Field>, z: nat, p: int)
    requires Regular(g) && |cells| == |g| && z < |g| && IsPlayer(p)
    requires IsNextVal(NeighborValues(g, cells, z, p), cells[z].nextVal.At(p))
    requires CellsOk(cells)
    ensures ExplainedFor(g, cells, z, p)
  {
    var nv := cells[z].nextVal.At(p);
    assert CellOk(cells[z]);
    if nv != 0 {
      ValuesInRange(g, cells, z, p);
      var v := if nv == -1 then MAX_VALUE else nv - 1;
      assert v in NeighborValues(g, cells, z, p);
      var j :| 0 <= j < |g[z]| && cells[g[z][j]].owner == p && cells[g[z][j]].value == v;
      assert Explains(cells[g[z][j]], cells[z], p);
    }
  }

  /** The incremental invariant is equivalent to: caches equal recomputation and no grass is left to capture. */
  lemma CachesEqualRecomputation(g: Graph, cells: seq<Field>)
    requires Regular(g) && Symmetric(g) && |cells| == |g| && CellsOk(cells)
    ensures AllSettled(g, cells) && AllExplained(g, cells) <==> CachesFresh(g, cells) && GrassOutOfReach(g, cells)
  {
    if AllSettled(g, cells) && AllExplained(g, cells) {
      forall z: nat, p | z < |g| && IsPlayer(p) && !cells[z].Occupied()
        ensures IsNextVal(NeighborValues(g, cells, z, p), cells[z].nextVal.At(p))
      {
        FreshAt(g, cells, z, p);
      }
      forall y, j | 0 <= y < |g| && 0 <= j < |g[y]| && IsPlayer(cells[y].owner) && cells[g[y][j]].typ == Grass
        ensures cells[g[y][j]].value > cells[y].value
      {
        assert Settled(cells[y], cells[g[y][j]]);
      }
    }
    if CachesFresh(g, cells) && GrassOutOfReach(g, cells) {
      forall y, j | 0 <= y < |g| && 0 <= j < |g[y]| && Owned(cells[y])
        ensures Settled(cells[y], cells[g[y][j]])
      {
        SettledAt(g, cells, y, j);
      }
      forall z: nat, p | z < |g| && !cells[z].Occupied() && IsPlayer(p)
        ensures ExplainedFor(g, cells, z, p)
      {
        ExplainedAt(g, cells, z, p);
      }
    }
  }

  // ---- The invariant of reachable states ----

  ghost predicate WorldOk(g: Graph, w: World)
  {
    && Fits(g, w) && Symmetric(g)
    && CellsOk(w.cells) && AllSettled(g, w.cells) && AllExplained(g, w.cells) && Counted(w)
  }

  /** Flagz hands out unlimited normal pieces, some flags, and nothing else. */
  predicate PiecesOk(ps: Pieces)
  {
    && ps[Code(Normal)] == -1 && ps[Code(Flag)] >= 0
    && forall k :: 0 <= k < 8 && k != Code(Normal) && k != Code(Flag) ==> ps[k] == 0
  }

  ghost predicate Inv(g: Graph, s: Game)
  {
    && Shaped(g, s) && WorldOk(g, s.world)
    && s.freeCells == |FreeCells(s.world.cells)|
    && PiecesOk(s.pieces.p1) && PiecesOk(s.pieces.p2)
    && s.state != Initial
    && (s.state == Running ==> s.freeCells > 0 && s.CanMove(s.turn))
    && (s.state == Finished ==> Decided(s))
  }

  // ---- Placing a piece ----

  lemma PlacedSpreads(g: Graph, s: Game, m: FlatMove)
    requires Inv(g, s) && Legal(s, m)
    ensures Spreading(g, Placed(s, m), m.at, 0) && CellsOk(Placed(s, m).cells)
    ensures Placed(s, m).cells[m.at].owner == s.turn
    ensures forall y, j :: 0 <= y < |g| && 0 <= j < |g[y]| && y != m.at && Owned(Placed(s, m).cells[y])
                           ==> Settled(Placed(s, m).cells[y], Placed(s, m).cells[g[y][j]])
  {
    var a, b := s.world.cells, Placed(s, m).cells;
    assert CellOk(a[m.at]);
    assert CellOk(b[m.at]);
    assert forall y :: 0 <= y < |g| && y != m.at ==> b[y] == a[y];
    forall y, j | 0 <= y < |g| && 0 <= j < |g[y]| && y != m.at && Owned(b[y])
      ensures Settled(b[y], b[g[y][j]])
    {
      assert Settled(a[y], a[g[y][j]]);
    }
  }

  lemma PlacedExplained(g: Graph, s: Game, m: FlatMove)
    requires Inv(g, s) && Legal(s, m)
    ensures AllExplained(g, Placed(s, m).cells)
  {
    var a, b := s.world.cells, Placed(s, m).cells;
    forall z: nat, p | z < |g| && !b[z].Occupied() && IsPlayer(p)
      ensures ExplainedFor(g, b, z, p)
    {
      assert b[z] == a[z] && ExplainedFor(g, a, z, p);
      if b[z].nextVal.At(p) != 0 {
        var j :| 0 <= j < |g[z]| && Explains(a[g[z][j]], a[z], p);
        assert CellOk(a[m.at]);
        assert Explains(b[g[z][j]], b[z], p);
      }
    }
  }

  lemma PlacedCounted(g: Graph, s: Game, m: FlatMove, p: int)
    requires Inv(g, s) && Legal(s, m) && IsPlayer(p)
    ensures CountedFor(Placed(s, m), p)
  {
    var a, b := s.world.cells, Placed(s, m).cells;
    assert CellOk(a[m.at]);
    assert CountedFor(s.world, p);
    OwnedSumUpdate(a, m.at, b[m.at], p);
    AvailUpdate(a, m.at, b[m.at], p);
  }

  lemma PlacedAvail(g: Graph, s: Game, m: FlatMove, p: int)
    requires Inv(g, s) && Legal(s, m) && IsPlayer(p)
    ensures AvailCells(Placed(s, m).cells, p) <= AvailCells(s.world.cells, p)
  {
  }

  lemma PlacedFree(g: Graph, s: Game, m: FlatMove)
    requires Inv(g, s) && Legal(s, m)
    ensures |FreeCells(Placed(s, m).cells)| == s.freeCells - 1
  {
    var a, b := FreeCells(s.world.cells), FreeCells(Placed(s, m).cells);
    var at: nat := m.at;
    assert b == a - {at} && at in a;
  }

  // ---- One accepted move ----

  lemma MovedWorldOk(g: Graph, s: Game, m: FlatMove)
    requires Inv(g, s) && Legal(s, m)
    ensures WorldOk(g, Moved(g, s, m).world)
    ensures Moved(g, s, m).freeCells == |FreeCells(Moved(g, s, m).world.cells)|
    ensures AllGrown(Placed(s, m).cells, Moved(g, s, m).world.cells, s.turn)
  {
    var w := Placed(s, m);
    PlacedSpreads(g, s, m);
    SpreadStaysOk(g, w, m.at, 0);
    SpreadKeepsSettled(g, w, m.at);
    PlacedExplained(g, s, m);
    SpreadExplains(g, w, m.at, 0);
    PlacedCounted(g, s, m, 1);
    PlacedCounted(g, s, m, 2);
    SpreadCounts(g, w, m.at, 0, 1);
    SpreadCounts(g, w, m.at, 0, 2);
    PlacedFree(g, s, m);
    GrownSets(w.cells, Spread(g, w, m.at, 0).cells, s.turn);
  }

  /** The opponent's score and flags do not change and the opponent gains no move; the mover's score never drops. */
  lemma MovedOpponent(g: Graph, s: Game, m: FlatMove)
    requires Inv(g, s) && Legal(s, m)
    ensures Moved(g, s, m).world.score.At(3 - s.turn) == s.world.score.At(3 - s.turn)
    ensures Moved(g, s, m).world.score.At(s.turn) >= s.world.score.At(s.turn)
    ensures Moved(g, s, m).world.normal.At(3 - s.turn) <= s.world.normal.At(3 - s.turn)
    ensures Moved(g, s, m).pieces.At(3 - s.turn) == s.pieces.At(3 - s.turn)
  {
    var p, w, t := s.turn, Placed(s, m), Moved(g, s, m);
    MovedWorldOk(g, s, m);
    PlacedSpreads(g, s, m);
    PlacedCounted(g, s, m, p);
    PlacedCounted(g, s, m, 3 - p);
    PlacedAvail(g, s, m, 3 - p);
    GrownScores(w.cells, t.world.cells, p);
    GrownSets(w.cells, t.world.cells, p);
    SubsetSize(AvailCells(w.cells, 3 - p), AvailCells(s.world.cells, 3 - p));
    assert CountedFor(t.world, p) && CountedFor(t.world, 3 - p);
    assert CountedFor(s.world, p) && CountedFor(s.world, 3 - p);
    assert CellOk(s.world.cells[m.at]);
  }

  /** A legal move shows that its player can move and that a cell is free. */
  lemma LegalMeansCanMove(g: Graph, s: Game, m: FlatMove)
    requires Inv(g, s) && Legal(s, m)
    ensures s.CanMove(s.turn) && s.freeCells > 0
  {
    var at: nat := m.at;
    assert at in FreeCells(s.world.cells);
    assert CountedFor(s.world, s.turn);
    if m.cellType == Normal {
      assert at in AvailCells(s.world.cells, s.turn);
    }
  }

  /** Only their own moves raise a player's options: once unable to move, always unable to move. */
  lemma StuckStaysStuck(g: Graph, s: Game, m: FlatMove, q: int)
    requires Inv(g, s) && Legal(s, m) && IsPlayer(q) && !s.CanMove(q)
    ensures s.turn == 3 - q
    ensures !Moved(g, s, m).CanMove(q)
  {
    LegalMeansCanMove(g, s, m);
    MovedOpponent(g, s, m);
  }

  lemma DecidedStays(g: Graph, s: Game, m: FlatMove)
    requires Inv(g, s) && Legal(s, m) && Decided(s)
    ensures Decided(Moved(g, s, m))
    ensures s.world.score.At(s.turn) > s.world.score.At(3 - s.turn)
    ensures Moved(g, s, m).world.score.At(s.turn) > Moved(g, s, m).world.score.At(3 - s.turn)
  {
    LegalMeansCanMove(g, s, m);
    MovedOpponent(g, s, m);
    assert !s.CanMove(3 - s.turn);
    StuckStaysStuck(g, s, m, 3 - s.turn);
  }

  lemma MovedPieces(g: Graph, s: Game, m: FlatMove)
    requires Inv(g, s) && Legal(s, m)
    ensures PiecesOk(Moved(g, s, m).pieces.p1) && PiecesOk(Moved(g, s, m).pieces.p2)
  {
  }

  /** Every accepted move keeps the invariant. */
  lemma MakeMoveKeepsInv(g: Graph, s: Game, m: FlatMove)
    requires Inv(g, s) && Legal(s, m)
    ensures Inv(g, MakeMove(g, s, m).game)
  {
    var t := Moved(g, s, m);
    MovedWorldOk(g, s, m);
    MovedPieces(g, s, m);
    if s.state == Finished {
      DecidedStays(g, s, m);
    }
    assert MakeMove(g, s, m).game.world == t.world;
    assert t.CanMove(1) == RecomputeState(t).CanMove(1) && t.CanMove(2) == RecomputeState(t).CanMove(2);
  }

  lemma CellAfterMove(g: Graph, s: Game, m: FlatMove, z: nat)
    requires Inv(g, s) && Legal(s, m) && z < |g|
    ensures var a, b, c := s.world.cells, Placed(s, m).cells, MakeMove(g, s, m).game.world.cells;
            && |a| == |b| == |c| == |g|
            && (z == m.at ==> c[z] == a[z].(owner := s.turn, typ := m.cellType, hidden := false, lifetime := -1,
                                            value := if m.cellType == Flag then 0 else a[z].nextVal.At(s.turn)))
            && (z != m.at && a[z].typ == Grass ==>
                  c[z] == if DownhillFrom(g, b, m.at, z) then a[z].(typ := Normal, owner := s.turn) else a[z])
            && (z != m.at && a[z].typ != Grass && a[z].Occupied() ==> c[z] == a[z])
            && (z != m.at && !a[z].Occupied() ==>
                  c[z] == a[z].(nextVal := c[z].nextVal, blocked := c[z].blocked) && !c[z].Occupied())
  {
    var w := Placed(s, m);
    var c := Spread(g, w, m.at, 0).cells;
    PlacedSpreads(g, s, m);
    SpreadStaysOk(g, w, m.at, 0);
    assert Grown(w.cells[z], c[z], s.turn);
    assert Grown(w.cells[m.at], c[m.at], s.turn);
    if w.cells[z].typ == Grass {
      SpreadCapturesDownhill(g, w, m.at, z);
      assert CellOk(w.cells[z]);
    }
  }

  /** What a free cell remembers: its next value recomputed from the neighbours, and whether it is blocked. */
  lemma RememberedValue(g: Graph, s: Game, z: nat, p: int)
    requires Inv(g, s) && z < |g| && !s.world.cells[z].Occupied() && IsPlayer(p)
    ensures IsNextVal(NeighborValues(g, s.world.cells, z, p), s.world.cells[z].nextVal.At(p))
    ensures s.world.cells[z].blocked.At(p) <==> s.world.cells[z].nextVal.At(p) == -1
  {
    assert ExplainedFor(g, s.world.cells, z, p);
    assert CellOk(s.world.cells[z]);
    FreshAt(g, s.world.cells, z, p);
  }

  lemma NextValueAfterMove(g: Graph, s: Game, m: FlatMove, z: nat, p: int)
    requires Inv(g, s) && Legal(s, m) && z < |g| && z != m.at && !s.world.cells[z].Occupied() && IsPlayer(p)
    ensures var c := MakeMove(g, s, m).game.world.cells;
            && |c| == |g| && IsNextVal(NeighborValues(g, c, z, p), c[z].nextVal.At(p))
            && (c[z].blocked.At(p) <==> c[z].nextVal.At(p) == -1)
  {
    CellAfterMove(g, s, m, z);
    MakeMoveKeepsInv(g, s, m);
    RememberedValue(g, MakeMove(g, s, m).game, z, p);
  }

  /** The cell remembers for each player the recomputed next value and whether it is blocked. */
  ghost predicate Recomputed(g: Graph, cells: seq<Field>, z: nat)
    requires Regular(g) && |cells| == |g| && z < |g|
  {
    forall p :: IsPlayer(p) ==>
      && IsNextVal(NeighborValues(g, cells, z, p), cells[z].nextVal.At(p))
      && (cells[z].blocked.At(p) <==> cells[z].nextVal.At(p) == -1)
  }

  /** What one accepted move does to a cell, in every field, stated without the update procedure. */
  lemma MoveEffect(g: Graph, s: Game, m: FlatMove, z: nat)
    requires Inv(g, s) && Legal(s, m) && z < |g|
    ensures var a, b, c := s.world.cells, Placed(s, m).cells, MakeMove(g, s, m).game.world.cells;
            && |a| == |b| == |c| == |g|
            && (z == m.at ==> c[z] == a[z].(owner := s.turn, typ := m.cellType, hidden := false, lifetime := -1,
                                            value := if m.cellType == Flag then 0 else a[z].nextVal.At(s.turn)))
            && (z != m.at && a[z].typ == Grass ==>
                  c[z] == if DownhillFrom(g, b, m.at, z) then a[z].(typ := Normal, owner := s.turn) else a[z])
            && (z != m.at && a[z].typ != Grass && a[z].Occupied() ==> c[z] == a[z])
            && (z != m.at && !a[z].Occupied() ==>
                  && c[z] == a[z].(nextVal := c[z].nextVal, blocked := c[z].blocked) && !c[z].Occupied()
                  && Recomputed(g, c, z))
  {
    CellAfterMove(g, s, m, z);
    if z != m.at && !s.world.cells[z].Occupied() {
      forall p | IsPlayer(p)
        ensures var c := MakeMove(g, s, m).game.world.cells;
                && IsNextVal(NeighborValues(g, c, z, p), c[z].nextVal.At(p))
                && (c[z].blocked.At(p) <==> c[z].nextVal.At(p) == -1)
      {
        NextValueAfterMove(g, s, m, z, p);
      }
    }
  }

  /** What one accepted move does to the rest of the state. */
  lemma MoveCounts(g: Graph, s: Game, m: FlatMove)
    requires Inv(g, s) && Legal(s, m)
    ensures var t := MakeMove(g, s, m).game;
            && t.move == s.move + 1 && t.freeCells == s.freeCells - 1 && t.lastRevealed == s.lastRevealed
            && (forall p, k :: IsPlayer(p) && 0 <= k < 8 ==>
                  t.pieces.At(p)[k] == s.pieces.At(p)[k] - if p == s.turn && k == 5 && m.cellType == Flag then 1 else 0)
            && (forall p :: IsPlayer(p) ==> t.world.score.At(p) == OwnedSum(t.world.cells, p))
            && (s.state == Finished ==> t.state == Finished)
  {
    MakeMoveKeepsInv(g, s, m);
    var t := MakeMove(g, s, m).game;
    assert CountedFor(t.world, 1) && CountedFor(t.world, 2);
  }

  /** Which moves are legal, in terms of the cells alone: a flag on any free cell while flags last,
      or a normal piece next to an own cell and next to no own cell of value 5. */
  lemma LegalIff(g: Graph, s: Game, m: FlatMove)
    requires Inv(g, s)
    ensures Legal(s, m) <==>
              && m.player == s.turn && m.move == s.move
              && 0 <= m.at < |g| && !s.world.cells[m.at].Occupied()
              && var vals := NeighborValues(g, s.world.cells, m.at, s.turn);
                 || (m.cellType == Flag && s.Flags(s.turn) > 0)
                 || (m.cellType == Normal && vals != {} && 5 !in vals)
  {
    if 0 <= m.at < |g| && !s.world.cells[m.at].Occupied() {
      CachesEqualRecomputation(g, s.world.cells);
      var vals := NeighborValues(g, s.world.cells, m.at, s.turn);
      assert IsNextVal(vals, s.world.cells[m.at].nextVal.At(s.turn));
      assert CellOk(s.world.cells[m.at]);
      ValuesInRange(g, s.world.cells, m.at, s.turn);
      var ps := s.pieces.At(s.turn);
      assert PiecesOk(ps);
      assert m.cellType != Normal && m.cellType != Flag ==> ps[Code(m.cellType)] == 0;
    }
  }

  // ---- Whole runs ----

  /** Submits moves one after the other; rejected moves change nothing. */
  ghost function Run(g: Graph, s: Game, ms: seq<FlatMove>): (r: Game)
    requires Inv(g, s)
    ensures Inv(g, r)
    decreases |ms|
  {
    if ms == [] then s
    else if Legal(s, ms[0]) then
      MakeMoveKeepsInv(g, s, ms[0]);
      Run(g, MakeMove(g, s, ms[0]).game, ms[1..])
    else Run(g, s, ms[1..])
  }

  ghost function AcceptedCount(g: Graph, s: Game, ms: seq<FlatMove>): nat
    requires Inv(g, s)
    decreases |ms|
  {
    if ms == [] then 0
    else if Legal(s, ms[0]) then
      MakeMoveKeepsInv(g, s, ms[0]);
      1 + AcceptedCount(g, MakeMove(g, s, ms[0]).game, ms[1..])
    else AcceptedCount(g, s, ms[1..])
  }

  /** Who wins: nobody before the game is finished, then the player with strictly more points. */
  lemma WinnerHasMorePoints(s: Game)
    ensures s.state != Finished ==> Winner(s) == 0
    ensures s.state == Finished ==> (Winner(s) == 1 <==> s.world.score.p1 > s.world.score.p2)
    ensures s.state == Finished ==> (Winner(s) == 2 <==> s.world.score.p2 > s.world.score.p1)
    ensures s.state == Finished ==> (Winner(s) == 0 <==> s.world.score.p1 == s.world.score.p2)
  {
  }

  /** Finishing early is sound: whatever would still be accepted, the strict leader stays the strict leader and a
      draw stays a draw, so the winner stays. */
  lemma {:induction false} EarlyFinishIsSound(g: Graph, s: Game, ms: seq<FlatMove>)
    requires Inv(g, s) && s.state == Finished
    ensures Run(g, s, ms).state == Finished
    ensures var before, after := s.world.score, Run(g, s, ms).world.score;
            && (before.p1 > before.p2 <==> after.p1 > after.p2)
            && (before.p2 > before.p1 <==> after.p2 > after.p1)
    ensures Winner(Run(g, s, ms)) == Winner(s)
    decreases |ms|
  {
    if ms != [] {
      if Legal(s, ms[0]) {
        DecidedStays(g, s, ms[0]);
        MakeMoveKeepsInv(g, s, ms[0]);
        EarlyFinishIsSound(g, MakeMove(g, s, ms[0]).game, ms[1..]);
      } else {
        EarlyFinishIsSound(g, s, ms[1..]);
      }
    }
  }

  /** A player who cannot move never regains a move. */
  lemma {:induction false} NeverRegainsMoves(g: Graph, s: Game, ms: seq<FlatMove>, q: int)
    requires Inv(g, s) && IsPlayer(q) && !s.CanMove(q)
    ensures !Run(g, s, ms).CanMove(q)
    ensures Run(g, s, ms).world.score.At(q) == s.world.score.At(q)
    decreases |ms|
  {
    if ms != [] {
      if Legal(s, ms[0]) {
        StuckStaysStuck(g, s, ms[0], q);
        MovedOpponent(g, s, ms[0]);
        MakeMoveKeepsInv(g, s, ms[0]);
        NeverRegainsMoves(g, MakeMove(g, s, ms[0]).game, ms[1..], q);
      } else {
        NeverRegainsMoves(g, s, ms[1..], q);
      }
    }
  }

  /** A game accepts exactly as many moves as cells get occupied by them: at most the free cells it starts with. */
  lemma {:induction false} RunsAreBounded(g: Graph, s: Game, ms: seq<FlatMove>)
    requires Inv(g, s)
    ensures AcceptedCount(g, s, ms) == s.freeCells - Run(g, s, ms).freeCells <= s.freeCells
    ensures Run(g, s, ms).move == s.move + AcceptedCount(g, s, ms)
    decreases |ms|
  {
    if ms != [] {
      if Legal(s, ms[0]) {
        MakeMoveKeepsInv(g, s, ms[0]);
        RunsAreBounded(g, MakeMove(g, s, ms[0]).game, ms[1..]);
      } else {
        RunsAreBounded(g, s, ms[1..]);
      }
    }
  }

  lemma FlagCellsAt(g: Graph, s: Game, m: FlatMove, p: int, z: nat)
    requires Inv(g, s) && Legal(s, m) && IsPlayer(p) && z < |g|
    ensures z in FlagCells(MakeMove(g, s, m).game.world.cells, p) <==>
              if z == m.at then m.cellType == Flag && s.turn == p else z in FlagCells(s.world.cells, p)
    ensures |MakeMove(g, s, m).game.world.cells| == |g| && m.at !in FlagCells(s.world.cells, p)
  {
    CellAfterMove(g, s, m, z);
  }

  lemma FlagsLeft(g: Graph, s: Game, m: FlatMove, p: int)
    requires Inv(g, s) && Legal(s, m) && IsPlayer(p)
    ensures MakeMove(g, s, m).game.Flags(p) == s.Flags(p) - if m.cellType == Flag && s.turn == p then 1 else 0
  {
  }

  lemma MoveSpendsFlag(g: Graph, s: Game, m: FlatMove, p: int)
    requires Inv(g, s) && Legal(s, m) && IsPlayer(p)
    ensures |FlagCells(MakeMove(g, s, m).game.world.cells, p)| + MakeMove(g, s, m).game.Flags(p)
            == |FlagCells(s.world.cells, p)| + s.Flags(p)
  {
    FlagsLeft(g, s, m, p);
    FlagSet(g, s, m, p);
  }

  lemma FlagSet(g: Graph, s: Game, m: FlatMove, p: int)
    requires Inv(g, s) && Legal(s, m) && IsPlayer(p)
    ensures |FlagCells(MakeMove(g, s, m).game.world.cells, p)|
            == |FlagCells(s.world.cells, p)| + if m.cellType == Flag && s.turn == p then 1 else 0
  {
    var at: nat := m.at;
    var before, after := FlagCells(s.world.cells, p), FlagCells(MakeMove(g, s, m).game.world.cells, p);
    var placed := if m.cellType == Flag && s.turn == p then {at} else {};
    FlagCellsAt(g, s, m, p, at);
    forall z: nat
      ensures z in after <==> z in before + placed
    {
      if z < |g| {
        FlagCellsAt(g, s, m, p, z);
      }
    }
    assert after == before + placed;
  }

  /** Over any run the flags a player has left and the flags the player has on the board add up to the same number. */
  lemma {:induction false} FlagsAreConserved(g: Graph, s: Game, ms: seq<FlatMove>, p: int)
    requires Inv(g, s) && IsPlayer(p)
    ensures var t := Run(g, s, ms);
            |FlagCells(t.world.cells, p)| + t.Flags(p) == |FlagCells(s.world.cells, p)| + s.Flags(p)
    decreases |ms|
  {
    if ms != [] {
      if Legal(s, ms[0]) {
        MakeMoveKeepsInv(g, s, ms[0]);
        MoveSpendsFlag(g, s, ms[0], p);
        FlagsAreConserved(g, MakeMove(g, s, ms[0]).game, ms[1..], p);
      } else {
        FlagsAreConserved(g, s, ms[1..], p);
      }
    }
  }

  predicate HasMove(s: Game, p: int, at: int, ct: CellType)
  {
    Legal(s.(turn := p), FlatMove(p, s.move, at, ct))
  }

  ghost predicate SomeMove(s: Game, p: int)
  {
    exists at, ct :: HasMove(s, p, at, ct)
  }

  /** The counters say whether a player could move if it were that player's turn. */
  lemma CanMoveIff(g: Graph, s: Game, p: int)
    requires Inv(g, s) && IsPlayer(p)
    ensures s.CanMove(p) <==> SomeMove(s, p)
  {
    assert CountedFor(s.world, p);
    if s.CanMove(p) {
      if s.world.normal.At(p) > 0 {
        var z :| z in AvailCells(s.world.cells, p);
        assert HasMove(s, p, z, Normal);
      } else {
        var z :| z in FreeCells(s.world.cells);
        assert HasMove(s, p, z, Flag);
      }
    }
    if at, ct :| HasMove(s, p, at, ct) {
      var z: nat := at;
      assert z in FreeCells(s.world.cells);
      if ct == Normal {
        assert z in AvailCells(s.world.cells, p);
      }
    }
  }

  /** Who is next, and whether the game is over, after a move in a running game, in terms of the legal moves:
      the game ends exactly if nobody has one or the only player who has one is ahead; until then the other
      player is next, unless only the mover has one. */
  lemma AfterMove(g: Graph, s: Game, m: FlatMove)
    requires Inv(g, s) && Legal(s, m) && s.state == Running
    ensures var t := MakeMove(g, s, m).game;
            var sc := t.world.score;
            && (t.state == Finished <==> || !(SomeMove(t, 1) || SomeMove(t, 2))
                                         || (sc.p1 > sc.p2 && !SomeMove(t, 2)) || (sc.p2 > sc.p1 && !SomeMove(t, 1)))
            && (t.state == Running ==> t.turn == if SomeMove(t, 3 - s.turn) then 3 - s.turn else s.turn)
  {
    MakeMoveKeepsInv(g, s, m);
    var u, t := Moved(g, s, m), MakeMove(g, s, m).game;
    assert u.CanMove(1) == t.CanMove(1) && u.CanMove(2) == t.CanMove(2);
    CanMoveIff(g, t, 1);
    CanMoveIff(g, t, 2);
    NoFreeCellNoMove(g, t, 1);
    NoFreeCellNoMove(g, t, 2);
  }

  lemma NoFreeCellNoMove(g: Graph, s: Game, p: int)
    requires Inv(g, s) && IsPlayer(p)
    ensures s.freeCells == 0 ==> !s.CanMove(p)
  {
    assert CountedFor(s.world, p);
    assert AvailCells(s.world.cells, p) <= FreeCells(s.world.cells);
    SubsetSize(AvailCells(s.world.cells, p), FreeCells(s.world.cells));
  }

  /** In a running game the player to move has a legal move. */
  lemma RunningHasLegalMove(g: Graph, s: Game) returns (m: FlatMove)
    requires Inv(g, s) && s.state == Running
    ensures Legal(s, m)
  {
    assert CountedFor(s.world, s.turn);
    if s.world.normal.At(s.turn) > 0 {
      var at :| at in AvailCells(s.world.cells, s.turn);
      m := FlatMove(s.turn, s.move, at, Normal);
    } else {
      var at :| at in FreeCells(s.world.cells);
      m := FlatMove(s.turn, s.move, at, Flag);
    }
  }
}
