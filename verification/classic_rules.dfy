/**
 The rules of hexz/classic.go on values: placing pieces, fire and pest, ageing of
 special cells, scoring.  The flood fill and the choice of a region are in
 ClassicFlood and ClassicRegions.
 */
module ClassicRules {
  import opened Cells
  import opened HexBoard
  import opened ClassicFlood
  import opened ClassicRegions
  import opened Moves
  import opened Sets

  datatype Game = Game(
    cells: seq<Field>, turn: int, move: int, lastRevealed: int,
    score: Two<int>, pieces: Two<Pieces>, state: GameState)

  function Lifetime(ct: CellType): int
  {
    match ct
    case Fire => 1
    case Dead => 1
    case Death => 1
    case Pest => 3
    case _ => -1
  }

  predicate IsPlayerPiece(ct: CellType)
  {
    ct == Normal || Code(Fire) <= Code(ct) <= Code(Death)
  }

  // ---- What every reachable board satisfies ----

  /** Owners are 0, 1 or 2; dead cells have no owner; special pieces have one.  Normal pieces and flags do not
      expire, the other special cells do after at most that many reveals of the board. */
  predicate CellOk(f: Field)
  {
    && 0 <= f.owner <= 2
    && match f.typ
       case Normal => f.lifetime == -1 || (f.owner == 0 && f.lifetime == 0)
       case Dead => f.owner == 0 && 0 <= f.lifetime <= 1
       case Fire => IsPlayer(f.owner) && 0 <= f.lifetime <= 1
       case Death => IsPlayer(f.owner) && 0 <= f.lifetime <= 1
       case Pest => IsPlayer(f.owner) && 0 <= f.lifetime <= 3
       case Flag => IsPlayer(f.owner) && f.lifetime == -1
       case _ => false
  }

  predicate CellsOk(cells: seq<Field>)
  {
    forall z {:trigger CellOk(cells[z])} :: 0 <= z < |cells| ==> CellOk(cells[z])
  }

  // ---- Effects ----

  function Burnt(f: Field): Field
  {
    f.(owner := 0, typ := Dead, hidden := false, lifetime := Lifetime(Dead))
  }

  /** All neighbours of a fire die. */
  ghost predicate FireStep(g: Graph, before: seq<Field>, after: seq<Field>, x: nat)
    requires |before| == |g| && x < |g|
  {
    |after| == |before| && forall z: nat :: z < |g| ==> after[z] == if z in g[x] then Burnt(before[z]) else before[z]
  }

  predicate Infects(y: Field, z: Field)
  {
    y.typ == Pest && y.lifetime < Lifetime(Pest) && z.owner > 0 && z.owner != y.owner && z.typ == Normal
  }

  /** Some neighbour of z carries an opposing pest past its first round. */
  ghost predicate Exposed(g: Graph, cells: seq<Field>, z: nat)
    requires |cells| == |g| && z < |g|
  {
    exists y: nat :: y < |g| && z in g[y] && Infects(cells[y], cells[z])
  }

  function Infected(f: Field): Field
  {
    f.(owner := 3 - f.owner, typ := Pest, lifetime := Lifetime(Pest))
  }

  /** The simultaneous pest step: decided for every cell on the old board. */
  ghost predicate PestStep(g: Graph, before: seq<Field>, after: seq<Field>)
    requires |before| == |g|
  {
    |after| == |before|
    && forall z: nat :: z < |g| ==> after[z] == if Exposed(g, before, z) then Infected(before[z]) else before[z]
  }

  function Aged(f: Field): Field
  {
    var f1 := if f.Occupied() && f.lifetime == 0
              then f.(owner := 0, hidden := false, typ := Normal, lifetime := Lifetime(Normal)) else f;
    if f1.lifetime > 0 then f1.(lifetime := f1.lifetime - 1) else f1
  }

  predicate AllRevealed(before: seq<Field>, after: seq<Field>)
  {
    |after| == |before| && forall z :: 0 <= z < |before| ==> after[z] == before[z].(hidden := false)
  }

  predicate AllAged(before: seq<Field>, after: seq<Field>)
  {
    |after| == |before| && forall z :: 0 <= z < |before| ==> after[z] == Aged(before[z])
  }

  /** Reveal hidden moves, let pests spread, age special cells. */
  ghost predicate RevealStep(g: Graph, before: seq<Field>, after: seq<Field>)
    requires |before| == |g|
  {
    exists shown, sick :: AllRevealed(before, shown) && PestStep(g, shown, sick) && AllAged(sick, after)
  }

  // ---- Occupying fields ----

  function PlacedPiece(f: Field, player: int, ct: CellType): Field
  {
    f.(owner := player, typ := ct, hidden := true, lifetime := Lifetime(ct))
  }

  /** The counters occupyFields starts every area with: a flag being placed counts everywhere. */
  function BaseArea(player: int, ct: CellType): Area
  {
    Area(0, if ct == Flag then Two(0, 0).Set(player, 1) else Two(0, 0), 0)
  }

  /** Who gets region R: the player with more flags on its border, the mover on a tie.  A flag that is
      just being placed touches every region and counts twice. */
  ghost function Occupator(g: Graph, cells: seq<Field>, R: set<nat>, player: int, ct: CellType): int
    requires |cells| == |g|
  {
    var own := |FlagBorder(g, cells, R, player)| + (if ct == Flag then 1 else 0);
    var other := |FlagBorder(g, cells, R, 3 - player)|;
    if other > own then 3 - player else player
  }

  ghost predicate Filled(before: seq<Field>, after: seq<Field>, R: set<nat>, owner: int)
  {
    |after| == |before|
    && forall z: nat :: z < |before| ==>
         after[z] == if z in R then before[z].(owner := owner, lifetime := Lifetime(Normal)) else before[z]
  }

  /** With fewer than two candidate regions around x nothing more is taken; otherwise a smallest candidate
      region is filled.  `num` is the number of cells taken, cell x included. */
  ghost predicate Taken(g: Graph, cells: seq<Field>, after: seq<Field>, x: nat, player: int, ct: CellType, num: int)
    requires |cells| == |g| && x < |g|
  {
    var ns := g[x];
    if |Candidates(g, cells, ns, |ns|)| <= 1 then after == cells && num == 1
    else
      exists k: nat :: k < |ns| && Smallest(g, cells, ns, k)
        && var R := Region(g, cells, ns[k]);
           num == 1 + |R| && Filled(cells, after, R, Occupator(g, cells, R, player, ct))
  }

  /** occupyFields: the piece is placed on cell x, then a region may be taken. */
  ghost predicate Occupation(g: Graph, before: seq<Field>, after: seq<Field>, x: nat,
                             player: int, ct: CellType, num: int)
    requires |before| == |g| && x < |g|
  {
    Taken(g, before[x := PlacedPiece(before[x], player, ct)], after, x, player, ct, num)
  }

  // ---- MakeMove ----

  /** The other player's hidden move is on this cell. */
  predicate Conflict(f: Field, turn: int)
  {
    f.Occupied() && f.hidden && f.owner == 3 - turn
  }

  predicate Legal(s: Game, m: FlatMove)
  {
    && m.player == s.turn && m.move == s.move
    && 0 <= m.at < |s.cells| && IsPlayerPiece(m.cellType)
    && (m.cellType != Normal ==> s.pieces.At(s.turn)[Code(m.cellType)] != 0)
    && (s.cells[m.at].Occupied() ==> Conflict(s.cells[m.at], s.turn) || m.cellType == Death)
  }

  /** The direct effect of a legal move on the cells; `num` is what occupyFields returned, else 0. */
  ghost predicate Placement(g: Graph, s: Game, m: FlatMove, after: seq<Field>, num: int)
    requires |s.cells| == |g| && Legal(s, m)
  {
    var f := s.cells[m.at];
    if Conflict(f, s.turn) then
      after == s.cells[m.at := f.(owner := 0, typ := Dead, lifetime := Lifetime(Dead))] && num == 0
    else if f.Occupied() then
      after == s.cells[m.at := f.(owner := s.turn, typ := Death, hidden := false, lifetime := Lifetime(Death))]
      && num == 0
    else if m.cellType == Fire then
      FireStep(g, s.cells[m.at := f.(owner := s.turn, typ := Fire, lifetime := Lifetime(Fire))], after, m.at)
      && num == 0
    else
      Occupation(g, s.cells, after, m.at, s.turn, m.cellType, num)
  }

  function NextMove(s: Game, m: FlatMove): int
    requires Legal(s, m)
  {
    if s.cells[m.at].Occupied() && !Conflict(s.cells[m.at], s.turn) then s.move else s.move + 1
  }

  predicate Reveals(s: Game, m: FlatMove, num: int)
    requires Legal(s, m)
  {
    || num > 1 || NextMove(s, m) - s.lastRevealed == 4
    || (m.cellType != Normal && m.cellType != Flag) || Conflict(s.cells[m.at], s.turn)
  }

  function UsePiece(s: Game, m: FlatMove): Two<Pieces>
    requires Legal(s, m)
  {
    var ps := s.pieces.At(s.turn);
    if m.cellType == Normal then s.pieces
    else s.pieces.Set(s.turn, ps[Code(m.cellType) := ps[Code(m.cellType)] - 1])
  }

  ghost function Visible(cells: seq<Field>, p: int): set<nat>
  {
    set z: nat | z < |cells| && cells[z].owner == p && !cells[z].hidden
  }

  ghost function OwnedBy(cells: seq<Field>, p: int): set<nat>
  {
    set z: nat | z < |cells| && cells[z].owner == p
  }

  ghost predicate Full(cells: seq<Field>)
  {
    forall z :: 0 <= z < |cells| ==> cells[z].Occupied()
  }

  /** recomputeScoreAndState: the score counts visible cells, before the last reveal. */
  ghost predicate Scored(before: seq<Field>, s: GameState, after: seq<Field>, score: Two<int>, s': GameState)
  {
    && score == Two(|Visible(before, 1)|, |Visible(before, 2)|)
    && (if Full(before) then AllRevealed(before, after) && s' == Finished else after == before && s' == s)
  }

  /** How an accepted move ends, once its piece is placed. */
  ghost predicate Concluded(g: Graph, s: Game, m: FlatMove, placed: seq<Field>, num: int, aged: seq<Field>, t: Game)
    requires |s.cells| == |g| && Legal(s, m)
  {
    && |placed| == |g|
    && (if Reveals(s, m, num) then RevealStep(g, placed, aged) && t.lastRevealed == t.move
        else aged == placed && t.lastRevealed == s.lastRevealed)
    && Scored(aged, s.state, t.cells, t.score, t.state)
  }

  /** One accepted move. */
  ghost predicate Step(g: Graph, s: Game, m: FlatMove, t: Game)
    requires |s.cells| == |g| && Legal(s, m)
  {
    && t.turn == (if s.turn + 1 > 2 then 1 else s.turn + 1) && t.move == NextMove(s, m) && t.pieces == UsePiece(s, m)
    && exists placed, num, aged :: Placement(g, s, m, placed, num) && Concluded(g, s, m, placed, num, aged, t)
  }

  predicate PiecesOk(ps: Pieces)
  {
    forall k :: 0 < k < 8 ==> ps[k] >= 0
  }

  /** A player's flags on the board and in hand; each player starts with one. */
  ghost function Flags(s: Game, p: int): int
  {
    |FlagCells(s.cells, p)| + s.pieces.At(p)[Code(Flag)]
  }

  ghost predicate Inv(g: Graph, s: Game)
  {
    && Regular(g) && Symmetric(g) && |s.cells| == |g| && CellsOk(s.cells) && IsPlayer(s.turn)
    && PiecesOk(s.pieces.p1) && PiecesOk(s.pieces.p2) && s.lastRevealed <= s.move <= s.lastRevealed + 3
    && Flags(s, 1) <= 1 && Flags(s, 2) <= 1
  }

  /** Unlimited normal pieces and one of each special piece. */
  function InitialPieces(): (ps: Pieces)
    ensures ps[Code(Normal)] == -1 && ps[Code(Dead)] == ps[Code(Grass)] == ps[Code(Rock)] == 0
    ensures ps[Code(Fire)] == ps[Code(Flag)] == ps[Code(Pest)] == ps[Code(Death)] == 1
  {
    [-1, 0, 0, 0, 1, 1, 1, 1]
  }

  function NewGame(d: Dims): Game
  {
    Game(seq(Size(d), _ => EMPTY), 1, 0, 0, Two(0, 0), Two(InitialPieces(), InitialPieces()), Running)
  }

  lemma NewGameInv(d: Dims)
    ensures Inv(GraphOf(d), NewGame(d))
  {
    GraphIsRegular(d);
    assert FlagCells(NewGame(d).cells, 1) == {} && FlagCells(NewGame(d).cells, 2) == {};
    forall z | 0 <= z < Size(d)
      ensures CellOk(NewGame(d).cells[z])
    {
    }
  }

  // ---- The invariant is kept ----

  lemma FireKeepsOk(g: Graph, before: seq<Field>, after: seq<Field>, x: nat)
    requires |before| == |g| && x < |g| && CellsOk(before) && FireStep(g, before, after, x)
    ensures CellsOk(after)
  {
    forall z | 0 <= z < |after|
      ensures CellOk(after[z])
    {
      assert CellOk(before[z]);
    }
  }

  lemma PestKeepsOk(g: Graph, before: seq<Field>, after: seq<Field>)
    requires |before| == |g| && CellsOk(before) && PestStep(g, before, after)
    ensures CellsOk(after)
  {
    forall z | 0 <= z < |after|
      ensures CellOk(after[z])
    {
      assert CellOk(before[z]);
    }
  }

  lemma PointwiseKeepsOk(before: seq<Field>, after: seq<Field>)
    requires CellsOk(before) && (AllRevealed(before, after) || AllAged(before, after))
    ensures CellsOk(after)
  {
    forall z | 0 <= z < |after|
      ensures CellOk(after[z])
    {
      assert CellOk(before[z]);
    }
  }

  lemma RevealKeepsOk(g: Graph, before: seq<Field>, after: seq<Field>)
    requires |before| == |g| && CellsOk(before) && RevealStep(g, before, after)
    ensures |after| == |g| && CellsOk(after)
  {
    var shown: seq<Field>, sick: seq<Field> :|
      AllRevealed(before, shown) && PestStep(g, shown, sick) && AllAged(sick, after);
    PointwiseKeepsOk(before, shown);
    PestKeepsOk(g, shown, sick);
    PointwiseKeepsOk(sick, after);
  }

  lemma FilledKeepsOk(before: seq<Field>, after: seq<Field>, R: set<nat>, owner: int)
    requires CellsOk(before) && IsPlayer(owner) && Filled(before, after, R, owner)
    requires forall z :: z in R ==> z < |before| && !before[z].Occupied()
    ensures CellsOk(after)
  {
    forall z | 0 <= z < |after|
      ensures CellOk(after[z])
    {
      assert CellOk(before[z]);
    }
  }

  lemma PlacedKeepsOk(cells: seq<Field>, x: nat, f: Field)
    requires CellsOk(cells) && x < |cells| && CellOk(f)
    ensures CellsOk(cells[x := f])
  {
    var after := cells[x := f];
    forall z | 0 <= z < |after|
      ensures CellOk(after[z])
    {
      assert z != x ==> CellOk(cells[z]);
    }
  }

  lemma OccupationKeepsOk(g: Graph, before: seq<Field>, after: seq<Field>, x: nat, player: int, ct: CellType, num: int)
    requires |before| == |g| && x < |g| && CellsOk(before) && IsPlayer(player) && IsPlayerPiece(ct)
    requires Occupation(g, before, after, x, player, ct, num)
    ensures CellsOk(after) && |after| == |g|
  {
    var cells := before[x := PlacedPiece(before[x], player, ct)];
    PlacedKeepsOk(before, x, PlacedPiece(before[x], player, ct));
    var ns := g[x];
    if |Candidates(g, cells, ns, |ns|)| > 1 {
      var k: nat :| k < |ns| && Smallest(g, cells, ns, k)
        && Filled(cells, after, Region(g, cells, ns[k]), Occupator(g, cells, Region(g, cells, ns[k]), player, ct));
      var R := Region(g, cells, ns[k]);
      forall z | z in R
        ensures z < |cells| && !cells[z].Occupied()
      {
        RegionFree(g, cells, ns[k], z);
      }
      FilledKeepsOk(cells, after, R, Occupator(g, cells, R, player, ct));
    }
  }

  lemma PlacementKeepsOk(g: Graph, s: Game, m: FlatMove, after: seq<Field>, num: int)
    requires |s.cells| == |g| && CellsOk(s.cells) && IsPlayer(s.turn)
    requires Legal(s, m) && Placement(g, s, m, after, num)
    ensures CellsOk(after) && |after| == |g|
  {
    var f := s.cells[m.at];
    if Conflict(f, s.turn) {
      PlacedKeepsOk(s.cells, m.at, f.(owner := 0, typ := Dead, lifetime := Lifetime(Dead)));
    } else if f.Occupied() {
      PlacedKeepsOk(s.cells, m.at, f.(owner := s.turn, typ := Death, hidden := false, lifetime := Lifetime(Death)));
    } else if m.cellType == Fire {
      var fire := f.(owner := s.turn, typ := Fire, lifetime := Lifetime(Fire));
      PlacedKeepsOk(s.cells, m.at, fire);
      FireKeepsOk(g, s.cells[m.at := fire], after, m.at);
    } else {
      OccupationKeepsOk(g, s.cells, after, m.at, s.turn, m.cellType, num);
    }
  }

  // Only placing a flag adds one to the board.

  ghost predicate NoNewFlags(before: seq<Field>, after: seq<Field>)
  {
    && |after| == |before|
    && forall z {:trigger after[z]} :: 0 <= z < |after| && after[z].typ == Flag ==>
         before[z].typ == Flag && before[z].owner == after[z].owner
  }

  lemma FlagsShrink(before: seq<Field>, after: seq<Field>, p: int)
    requires NoNewFlags(before, after)
    ensures |FlagCells(after, p)| <= |FlagCells(before, p)|
  {
    SubsetSize(FlagCells(after, p), FlagCells(before, p));
  }

  lemma RevealAddsNoFlag(g: Graph, before: seq<Field>, after: seq<Field>)
    requires |before| == |g| && RevealStep(g, before, after)
    ensures NoNewFlags(before, after)
  {
    var shown: seq<Field>, sick: seq<Field> :|
      AllRevealed(before, shown) && PestStep(g, shown, sick) && AllAged(sick, after);
    forall z: nat | z < |after| && after[z].typ == Flag
      ensures before[z].typ == Flag && before[z].owner == after[z].owner
    {
      assert sick[z].typ == Flag && shown[z] == sick[z];
    }
  }

  lemma FilledAddsNoFlag(cells: seq<Field>, after: seq<Field>, R: set<nat>, owner: int)
    requires Filled(cells, after, R, owner)
    requires forall z :: z in R ==> z < |cells| && !cells[z].Occupied()
    ensures NoNewFlags(cells, after)
  {
    forall z: nat | z < |after| && after[z].typ == Flag
      ensures after[z] == cells[z]
    {
    }
  }

  lemma OccupationAddsNoFlag(g: Graph, cells: seq<Field>, after: seq<Field>, x: nat,
                             player: int, ct: CellType, num: int)
    requires |cells| == |g| && x < |g| && Taken(g, cells, after, x, player, ct, num)
    ensures NoNewFlags(cells, after)
  {
    if |Candidates(g, cells, g[x], |g[x]|)| > 1 {
      var k: nat :| k < |g[x]| && Smallest(g, cells, g[x], k)
        && Filled(cells, after, Region(g, cells, g[x][k]), Occupator(g, cells, Region(g, cells, g[x][k]), player, ct));
      var R := Region(g, cells, g[x][k]);
      RegionIsFree(g, cells, g[x][k]);
      FilledAddsNoFlag(cells, after, R, Occupator(g, cells, R, player, ct));
    }
  }

  lemma RegionIsFree(g: Graph, cells: seq<Field>, x: nat)
    requires |cells| == |g|
    ensures forall z :: z in Region(g, cells, x) ==> z < |cells| && !cells[z].Occupied()
  {
    forall z | z in Region(g, cells, x)
      ensures !cells[z].Occupied()
    {
      RegionFree(g, cells, x, z);
    }
  }

  lemma WriteFlag(cells: seq<Field>, x: nat, f: Field, p: int)
    requires x < |cells|
    ensures |FlagCells(cells[x := f], p)| <= |FlagCells(cells, p)| + (if f.typ == Flag && f.owner == p then 1 else 0)
  {
    var now := FlagCells(cells[x := f], p);
    SubsetSize(now - {x}, FlagCells(cells, p));
    if x in now {
      assert now == (now - {x}) + {x};
    } else {
      assert now - {x} == now;
    }
  }

  lemma PlacementFlags(g: Graph, s: Game, m: FlatMove, after: seq<Field>, num: int, p: int)
    requires |s.cells| == |g| && Legal(s, m) && Placement(g, s, m, after, num)
    ensures |FlagCells(after, p)| <= |FlagCells(s.cells, p)| + (if m.cellType == Flag && s.turn == p then 1 else 0)
  {
    var f := s.cells[m.at];
    if Conflict(f, s.turn) {
      WriteFlag(s.cells, m.at, f.(owner := 0, typ := Dead, lifetime := Lifetime(Dead)), p);
    } else if f.Occupied() {
      WriteFlag(s.cells, m.at, f.(owner := s.turn, typ := Death, hidden := false, lifetime := Lifetime(Death)), p);
    } else if m.cellType == Fire {
      var fire := f.(owner := s.turn, typ := Fire, lifetime := Lifetime(Fire));
      WriteFlag(s.cells, m.at, fire, p);
      FlagsShrink(s.cells[m.at := fire], after, p);
    } else {
      var cells := s.cells[m.at := PlacedPiece(f, s.turn, m.cellType)];
      WriteFlag(s.cells, m.at, PlacedPiece(f, s.turn, m.cellType), p);
      OccupationAddsNoFlag(g, cells, after, m.at, s.turn, m.cellType, num);
      FlagsShrink(cells, after, p);
    }
  }

  /** No move increases the number of flags that a player has on the board and in hand. */
  lemma StepKeepsFlags(g: Graph, s: Game, m: FlatMove, t: Game, p: int)
    requires |s.cells| == |g| && IsPlayer(s.turn) && IsPlayer(p) && Legal(s, m) && Step(g, s, m, t)
    ensures Flags(t, p) <= Flags(s, p)
  {
    var placed, num, aged :| Placement(g, s, m, placed, num) && Concluded(g, s, m, placed, num, aged, t);
    PlacementFlags(g, s, m, placed, num, p);
    if Reveals(s, m, num) {
      RevealAddsNoFlag(g, placed, aged);
    }
    FlagsShrink(placed, aged, p);
    FlagsShrink(aged, t.cells, p);
  }

  /** Every accepted move keeps owners, piece types, lifetimes and the number of flags in range, and no more than
      three moves pass without a reveal of the board. */
  lemma StepKeepsInv(g: Graph, s: Game, m: FlatMove, t: Game)
    requires Inv(g, s) && Legal(s, m) && Step(g, s, m, t)
    ensures Inv(g, t)
  {
    StepKeepsFlags(g, s, m, t, 1);
    StepKeepsFlags(g, s, m, t, 2);
    StepKeepsCells(g, s, m, t);
  }

  lemma StepKeepsCells(g: Graph, s: Game, m: FlatMove, t: Game)
    requires |s.cells| == |g| && CellsOk(s.cells) && IsPlayer(s.turn) && Legal(s, m) && Step(g, s, m, t)
    ensures |t.cells| == |g| && CellsOk(t.cells)
  {
    var placed, num, aged :| Placement(g, s, m, placed, num) && Concluded(g, s, m, placed, num, aged, t);
    PlacementKeepsOk(g, s, m, placed, num);
    if Reveals(s, m, num) {
      RevealKeepsOk(g, placed, aged);
    }
    if Full(aged) {
      PointwiseKeepsOk(aged, t.cells);
    }
  }

  // ---- Whole games ----

  /** A game from the first state on. */
  ghost predicate IsGame(d: Dims, states: seq<Game>, moves: seq<FlatMove>)
  {
    && |states| == |moves| + 1 && states[0] == NewGame(d)
    && forall i {:trigger Played(d, states, moves, i)} :: 0 <= i < |moves| ==> Played(d, states, moves, i)
  }

  ghost predicate Played(d: Dims, states: seq<Game>, moves: seq<FlatMove>, i: nat)
    requires i < |moves| < |states|
  {
    && |states[i].cells| == Size(d) && states[i].state == Running && Legal(states[i], moves[i])
    && Step(GraphOf(d), states[i], moves[i], states[i + 1])
  }

  lemma {:induction false} GameKeepsInv(d: Dims, states: seq<Game>, moves: seq<FlatMove>, i: nat)
    requires IsGame(d, states, moves) && i <= |moves|
    ensures Inv(GraphOf(d), states[i])
  {
    if i == 0 {
      NewGameInv(d);
    } else {
      GameKeepsInv(d, states, moves, i - 1);
      assert Played(d, states, moves, i - 1);
      StepKeepsInv(GraphOf(d), states[i - 1], moves[i - 1], states[i]);
    }
  }

  /** How many of these moves are moves of player p with this piece. */
  function Uses(moves: seq<FlatMove>, p: int, ct: CellType): nat
  {
    if moves == [] then 0
    else
      var m := moves[|moves| - 1];
      Uses(moves[..|moves| - 1], p, ct) + if m.player == p && m.cellType == ct then 1 else 0
  }

  lemma StepUses(g: Graph, s: Game, m: FlatMove, t: Game, p: int, ct: CellType)
    requires Inv(g, s) && Legal(s, m) && Step(g, s, m, t) && IsPlayer(p) && ct != Normal
    ensures t.pieces.At(p)[Code(ct)] == s.pieces.At(p)[Code(ct)] - if m.player == p && m.cellType == ct then 1 else 0
  {
    assert Code(m.cellType) == Code(ct) <==> m.cellType == ct;
  }

  /** A player has one fire, one flag, one pest and one death in a game: played or left. */
  lemma {:induction false} SpecialPiecesOnce(d: Dims, states: seq<Game>, moves: seq<FlatMove>, i: nat,
                                             p: int, ct: CellType)
    requires IsGame(d, states, moves) && i <= |moves| && IsPlayer(p)
    requires ct == Fire || ct == Flag || ct == Pest || ct == Death
    ensures Uses(moves[..i], p, ct) + states[i].pieces.At(p)[Code(ct)] == 1
    ensures Uses(moves[..i], p, ct) <= 1
  {
    GameKeepsInv(d, states, moves, i);
    if i > 0 {
      SpecialPiecesOnce(d, states, moves, i - 1, p, ct);
      assert Played(d, states, moves, i - 1);
      assert moves[..i][..i - 1] == moves[..i - 1];
      GameKeepsInv(d, states, moves, i - 1);
      StepUses(GraphOf(d), states[i - 1], moves[i - 1], states[i], p, ct);
    }
  }

  /** Which moves are accepted: any piece that is left on a free cell or on the other player's hidden move, and on
      every other cell the death piece only. */
  lemma LegalCases(g: Graph, s: Game, m: FlatMove)
    requires Inv(g, s) && 0 <= m.at < |g|
    ensures var f := s.cells[m.at];
            var mine := m.player == s.turn && m.move == s.move;
            var left := m.cellType == Normal
                        || (m.cellType in {Fire, Flag, Pest, Death} && s.pieces.At(s.turn)[Code(m.cellType)] > 0);
            && (f.typ == Normal && f.owner == 0 ==> (Legal(s, m) <==> mine && left))
            && (f.hidden && f.owner == 3 - s.turn ==> (Legal(s, m) <==> mine && left))
            && (f.hidden && f.owner == s.turn ==> (Legal(s, m) <==> mine && left && m.cellType == Death))
            && ((f.typ != Normal || f.owner > 0) && !f.hidden ==>
                  (Legal(s, m) <==> mine && left && m.cellType == Death))
  {
  }
}
