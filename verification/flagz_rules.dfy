/**
 The rules of hexz/flagz.go as functions on values.  `Spread` is the recursive
 in-place update `updateNeighborCells`; `MakeMove` is one move.  The engine class
 in flagz_engine.dfy is proved to compute exactly these functions.
 */
module FlagzRules {
  import opened Cells
  import opened HexBoard
  import opened Moves

  const NUM_ROCK := 15
  const NUM_GRASS := 5
  const MAX_VALUE := 5

  /** What `updateNeighborCells` reads and writes. */
  datatype World = World(cells: seq<Field>, score: Two<int>, normal: Two<int>)

  datatype Game = Game(
    world: World, freeCells: int, turn: int, move: int, lastRevealed: int,
    pieces: Two<Pieces>, state: GameState)
  {
    function Flags(p: int): int {
      pieces.At(p)[Code(Flag)]
    }

    predicate CanMove(p: int) {
      world.normal.At(p) > 0 || (freeCells > 0 && Flags(p) > 0)
    }
  }

  // ---- updateNeighborCells ----

  ghost function GrassCells(cells: seq<Field>): set<nat>
  {
    set z: nat | z < |cells| && cells[z].typ == Grass
  }

  /** What a free cell next to an owned cell of value v remembers for that owner. */
  function Noted(nb: Field, p: int, v: int): Field
  {
    var nv := nb.nextVal.At(p);
    if v == MAX_VALUE then
      nb.(blocked := nb.blocked.Set(p, true), nextVal := nb.nextVal.Set(p, -1))
    else if nv == 0 || nv > v + 1 then
      nb.(nextVal := nb.nextVal.Set(p, v + 1))
    else
      nb
  }

  function NotedMoves(nb: Field, p: int, v: int): int
  {
    var nv := nb.nextVal.At(p);
    if v == MAX_VALUE then if nv > 0 then -1 else 0
    else if nv == 0 then 1
    else 0
  }

  function Note(w: World, z: nat, p: int, v: int): World
    requires z < |w.cells|
  {
    World(w.cells[z := Noted(w.cells[z], p, v)], w.score,
          w.normal.Set(p, w.normal.At(p) + NotedMoves(w.cells[z], p, v)))
  }

  function Capture(w: World, z: nat, p: int): World
    requires z < |w.cells|
  {
    World(w.cells[z := w.cells[z].(typ := Normal, owner := p)],
          w.score.Set(p, w.score.At(p) + w.cells[z].value), w.normal)
  }

  ghost predicate Fits(g: Graph, w: World)
  {
    Regular(g) && |w.cells| == |g|
  }

  predicate Captures(x: Field, z: Field)
  {
    z.typ == Grass && z.value <= x.value
  }

  /** Cell x is owned and has been written; its neighbours before the i-th have been looked at. */
  ghost predicate Spreading(g: Graph, w: World, x: nat, i: nat)
  {
    && Fits(g, w)
    && x < |g| && i <= |g[x]| && IsPlayer(w.cells[x].owner) && w.cells[x].typ != Grass
  }

  /** The loop of updateNeighborCells for cell x, from its i-th neighbour on. */
  ghost function Spread(g: Graph, w: World, x: nat, i: nat): (r: World)
    requires Spreading(g, w, x, i)
    ensures Fits(g, r)
    ensures GrassCells(r.cells) <= GrassCells(w.cells)
    ensures forall y: nat :: y < |g| && w.cells[y].Occupied() && w.cells[y].typ != Grass
                             ==> r.cells[y] == w.cells[y]
    decreases GrassCells(w.cells), |g[x]| - i
  {
    if i == |g[x]| then w
    else
      var f, z := w.cells[x], g[x][i];
      var nb := w.cells[z];
      if !nb.Occupied() then
        var w1 := Note(w, z, f.owner, f.value);
        assert GrassCells(w1.cells) <= GrassCells(w.cells);
        Spread(g, w1, x, i + 1)
      else if Captures(f, nb) then
        var w1 := Capture(w, z, f.owner);
        assert z in GrassCells(w.cells) && z !in GrassCells(w1.cells);
        assert GrassCells(w1.cells) <= GrassCells(w.cells);
        var w2 := Spread(g, w1, z, 0);
        Spread(g, w2, x, i + 1)
      else
        Spread(g, w, x, i + 1)
  }

  // ---- MakeMove ----

  /** Score-independent part of placing a piece: ownership of cell x and the move counters. */
  function Place(w: World, x: nat, p: int, ct: CellType, value: int): World
    requires x < |w.cells|
  {
    var f := w.cells[x];
    var mine := w.normal.At(p) - (if f.Available(p) then 1 else 0);
    var theirs := w.normal.At(3 - p) - (if f.Available(3 - p) then 1 else 0);
    World(
      w.cells[x := f.(owner := p, typ := ct, lifetime := -1, hidden := false, value := value)],
      w.score.Set(p, w.score.At(p) + value),
      if p == 1 then Two(mine, theirs) else Two(theirs, mine))
  }

  function UseFlag(pieces: Pieces): Pieces
  {
    pieces[Code(Flag) := pieces[Code(Flag)] - 1]
  }

  /** The game is over: no cell is free, nobody can move, or the only player who can move is ahead. */
  predicate Decided(s: Game)
  {
    var sc := s.world.score;
    || s.freeCells == 0
    || !(s.CanMove(1) || s.CanMove(2))
    || (sc.p1 > sc.p2 && !s.CanMove(2))
    || (sc.p2 > sc.p1 && !s.CanMove(1))
  }

  function RecomputeState(s: Game): Game
  {
    var can1, can2 := s.CanMove(1), s.CanMove(2);
    var turn := if !can1 && can2 then 2 else if can1 && !can2 then 1 else s.turn;
    s.(turn := turn, state := if Decided(s) then Finished else s.state)
  }

  datatype Outcome = Rejected | Accepted(game: Game)

  /** The tests of MakeMove that reject a move. */
  predicate Legal(s: Game, m: FlatMove)
  {
    && m.player == s.turn && m.move == s.move
    && 0 <= m.at < |s.world.cells|
    && !s.world.cells[m.at].Occupied()
    && s.pieces.At(s.turn)[Code(m.cellType)] != 0
    && match m.cellType
       case Normal => s.world.cells[m.at].Available(s.turn)
       case Flag => true
       case _ => false
  }

  /** The board right after the placed cell is written and before its neighbours are updated. */
  function Placed(s: Game, m: FlatMove): World
    requires Legal(s, m)
  {
    var value := if m.cellType == Flag then 0 else s.world.cells[m.at].nextVal.At(s.turn);
    Place(s.world, m.at, s.turn, m.cellType, value)
  }

  ghost predicate Shaped(g: Graph, s: Game)
  {
    Fits(g, s.world) && IsPlayer(s.turn)
  }

  /** The state after an accepted move, before turn and game state are recomputed. */
  ghost function Moved(g: Graph, s: Game, m: FlatMove): Game
    requires Shaped(g, s) && Legal(s, m)
  {
    s.(world := Spread(g, Placed(s, m), m.at, 0),
       freeCells := s.freeCells - 1,
       pieces := if m.cellType == Flag then s.pieces.Set(s.turn, UseFlag(s.pieces.At(s.turn))) else s.pieces,
       turn := 3 - s.turn,
       move := s.move + 1)
  }

  ghost function MakeMove(g: Graph, s: Game, m: FlatMove): Outcome
    requires Shaped(g, s)
  {
    if Legal(s, m) then Accepted(RecomputeState(Moved(g, s, m))) else Rejected
  }

  function Winner(s: Game): int
  {
    if s.state != Finished then 0
    else if s.world.score.p1 > s.world.score.p2 then 1
    else if s.world.score.p2 > s.world.score.p1 then 2
    else 0
  }
}
