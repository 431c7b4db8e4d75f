/**
 How a Flagz game starts: rocks and grass on an empty board, and the invariant of the first state.
 */
module FlagzSetup {
  import opened Cells
  import opened HexBoard
  import opened FlagzRules
  import opened FlagzSpread
  import opened FlagzCaches
  import opened FlagzGame
  import opened Moves
  import opened Sets

  predicate FreshCell(f: Field)
  {
    || f == EMPTY
    || f == EMPTY.(typ := Rock, lifetime := -1)
    || (f == EMPTY.(typ := Grass, lifetime := -1, value := f.value) && 1 <= f.value <= MAX_VALUE)
  }

  predicate FreshCells(cells: seq<Field>)
  {
    forall z :: 0 <= z < |cells| ==> FreshCell(cells[z])
  }

  /** A free cell may become a rock or grass of some value up to `grass`; any other cell stays. */
  predicate PopulatedCell(f: Field, f': Field, grass: int)
  {
    if f.Occupied() then f' == f
    else
      || f' == f
      || f' == f.(typ := Rock, lifetime := -1)
      || (f' == f.(typ := Grass, lifetime := -1, value := f'.value) && 1 <= f'.value <= grass)
  }

  ghost function Added(before: seq<Field>, after: seq<Field>, ct: CellType): set<nat>
    requires |after| == |before|
  {
    set z: nat | z < |before| && !before[z].Occupied() && after[z].typ == ct
  }

  /** The free cells among these positions. */
  ghost function FreeAmong(cells: seq<Field>, ks: seq<nat>): set<nat>
  {
    set z: nat | z < |cells| && z in ks && !cells[z].Occupied()
  }

  /** That many rocks and grass cells were put on free cells; the grass values are 1 to `grass`, each used once. */
  ghost predicate Populated(before: seq<Field>, after: seq<Field>, rocks: nat, grass: nat)
  {
    && |after| == |before|
    && (forall z {:trigger PopulatedCell(before[z], after[z], grass)} :: 0 <= z < |before| ==>
          PopulatedCell(before[z], after[z], grass))
    && |Added(before, after, Rock)| == rocks && |Added(before, after, Grass)| == grass
    && forall y, z {:trigger DifferentValues(after, y, z)} ::
         y in Added(before, after, Grass) && z in Added(before, after, Grass) && y != z ==> DifferentValues(after, y, z)
  }

  predicate DifferentValues(cells: seq<Field>, y: nat, z: nat)
  {
    y < |cells| && z < |cells| && cells[y].value != cells[z].value
  }

  /** One more free cell becomes rock or grass. */
  lemma AddedOne(before: seq<Field>, now: seq<Field>, k: nat, f: Field, ct: CellType)
    requires |now| == |before| && k < |now| && !before[k].Occupied() && !now[k].Occupied() && ct != Normal
    ensures Added(before, now[k := f], ct) == Added(before, now, ct) + (if f.typ == ct then {k} else {})
    ensures |Added(before, now[k := f], ct)| == |Added(before, now, ct)| + (if f.typ == ct then 1 else 0)
  {
    var was, will := Added(before, now, ct), Added(before, now[k := f], ct);
    forall z: nat
      ensures z in will <==> if z == k then f.typ == ct else z in was
    {
    }
    assert k !in was;
    if f.typ == ct {
      assert will == was + {k};
    } else {
      assert will == was;
    }
  }

  lemma PopulatedCells(before: seq<Field>, now: seq<Field>, grass: nat, k: nat, f: Field, grass': nat)
    requires |now| == |before| && k < |now| && grass <= grass' && PopulatedCell(before[k], f, grass')
    requires forall z {:trigger PopulatedCell(before[z], now[z], grass)} :: 0 <= z < |before| ==>
               PopulatedCell(before[z], now[z], grass)
    ensures forall z {:trigger PopulatedCell(before[z], now[k := f][z], grass')} :: 0 <= z < |before| ==>
              PopulatedCell(before[z], now[k := f][z], grass')
  {
    forall z | 0 <= z < |before|
      ensures PopulatedCell(before[z], now[k := f][z], grass')
    {
      assert PopulatedCell(before[z], now[z], grass);
    }
  }

  lemma PopulateRock(before: seq<Field>, now: seq<Field>, rocks: nat, grass: nat, k: nat)
    requires Populated(before, now, rocks, grass) && k < |now| && !now[k].Occupied()
    ensures Populated(before, now[k := now[k].(typ := Rock, lifetime := -1)], rocks + 1, grass)
  {
    var f := now[k].(typ := Rock, lifetime := -1);
    assert PopulatedCell(before[k], now[k], grass);
    PopulatedCells(before, now, grass, k, f, grass);
    AddedOne(before, now, k, f, Rock);
    AddedOne(before, now, k, f, Grass);
    forall y: nat, z: nat | y in Added(before, now, Grass) && z in Added(before, now, Grass) && y != z
      ensures DifferentValues(now[k := f], y, z)
    {
      assert DifferentValues(now, y, z);
    }
  }

  lemma PopulateGrass(before: seq<Field>, now: seq<Field>, rocks: nat, grass: nat, k: nat)
    requires Populated(before, now, rocks, grass) && k < |now| && !now[k].Occupied()
    ensures Populated(before, now[k := now[k].(typ := Grass, lifetime := -1, value := grass + 1)], rocks, grass + 1)
  {
    var f := now[k].(typ := Grass, lifetime := -1, value := grass + 1);
    assert PopulatedCell(before[k], now[k], grass);
    PopulatedCells(before, now, grass, k, f, grass + 1);
    AddedOne(before, now, k, f, Rock);
    AddedOne(before, now, k, f, Grass);
    forall y: nat | y in Added(before, now, Grass)
      ensures now[y].value <= grass
    {
      assert PopulatedCell(before[y], now[y], grass);
    }
    NewValueDiffers(before, now, grass, k, f);
  }

  lemma NewValueDiffers(before: seq<Field>, now: seq<Field>, grass: nat, k: nat, f: Field)
    requires |now| == |before| && k < |now| && f.value > grass
    requires forall y :: y in Added(before, now, Grass) ==> now[y].value <= grass
    requires forall y, z {:trigger DifferentValues(now, y, z)} ::
               y in Added(before, now, Grass) && z in Added(before, now, Grass) && y != z ==> DifferentValues(now, y, z)
    ensures forall y, z {:trigger DifferentValues(now[k := f], y, z)} ::
              y in Added(before, now[k := f], Grass) && z in Added(before, now[k := f], Grass) && y != z
              ==> DifferentValues(now[k := f], y, z)
  {
    var after := now[k := f];
    forall y: nat, z: nat | y in Added(before, after, Grass) && z in Added(before, after, Grass) && y != z
      ensures DifferentValues(after, y, z)
    {
      assert y != k ==> y in Added(before, now, Grass) && after[y] == now[y];
      assert z != k ==> z in Added(before, now, Grass) && after[z] == now[z];
      if y != k && z != k {
        assert DifferentValues(now, y, z);
      }
    }
  }

  /** Exactly the free cells among the positions drawn became cells of this type. */
  ghost predicate Drew(before: seq<Field>, now: seq<Field>, ct: CellType, ks: seq<nat>)
  {
    && |now| == |before| && Added(before, now, ct) == FreeAmong(before, ks)
    && forall k :: k in ks ==> k < |before|
  }

  lemma OnlyKind(before: seq<Field>, now: seq<Field>, rocks: nat, grass: nat, k: nat, ct: CellType)
    requires Populated(before, now, rocks, grass) && k < |now|
    requires (ct == Rock && grass == 0) || (ct == Grass && rocks == 0)
    ensures now[k].Occupied() && !before[k].Occupied() ==> now[k].typ == ct
    ensures before[k].Occupied() ==> now[k].Occupied()
  {
    assert PopulatedCell(before[k], now[k], grass);
    assert Added(before, now, Grass) == {} || grass > 0;
    assert Added(before, now, Rock) == {} || rocks > 0;
    assert now[k].typ == Rock && !before[k].Occupied() ==> k in Added(before, now, Rock);
    assert now[k].typ == Grass && !before[k].Occupied() ==> k in Added(before, now, Grass);
  }

  /** Drawing position k turns it into f if it is still free, and changes nothing else. */
  lemma DrawOne(before: seq<Field>, now: seq<Field>, ks: seq<nat>, k: nat, ct: CellType, f: Field,
                rocks: nat, grass: nat)
    requires Populated(before, now, rocks, grass) && k < |now| && Drew(before, now, ct, ks) && f.typ == ct
    requires (ct == Rock && grass == 0) || (ct == Grass && rocks == 0)
    ensures Drew(before, if now[k].Occupied() then now else now[k := f], ct, ks + [k])
  {
    OnlyKind(before, now, rocks, grass, k, ct);
    if now[k].Occupied() {
      assert FreeAmong(before, ks + [k]) == FreeAmong(before, ks);
    } else {
      AddedOne(before, now, k, f, ct);
      assert FreeAmong(before, ks + [k]) == FreeAmong(before, ks) + {k};
    }
  }

  /** On a board with a free cell in every place the first draw places a rock. */
  lemma RocksArePlaced(before: seq<Field>, after: seq<Field>, ks: seq<nat>, rocks: nat)
    requires Populated(before, after, rocks, 0) && Drew(before, after, Rock, ks)
    requires rocks < 15 ==> |ks| == |before|
    ensures |before| > 0 && |FreeCells(before)| == |before| ==> rocks >= 1
  {
    if |before| > 0 && |FreeCells(before)| == |before| && |ks| > 0 {
      var k := ks[0];
      assert k in ks;
      AllAreFree(before, k);
      assert k in FreeAmong(before, ks);
    }
  }

  lemma AllAreFree(cells: seq<Field>, k: nat)
    requires |FreeCells(cells)| == |cells| && k < |cells|
    ensures !cells[k].Occupied()
  {
    if cells[k].Occupied() {
      SizeWithout(FreeCells(cells), k, |cells|);
    }
  }

  lemma SizeWithout(s: set<nat>, k: nat, n: nat)
    requires k < n && k !in s && forall z :: z in s ==> z < n
    ensures |s| < n
  {
    BoundedSet(s + {k}, n);
  }

  lemma PopulateNothing(cells: seq<Field>)
    ensures Populated(cells, cells, 0, 0)
  {
    assert Added(cells, cells, Rock) == {} && Added(cells, cells, Grass) == {};
  }

  lemma {:induction false} FreshSum(cells: seq<Field>, p: int)
    requires FreshCells(cells) && IsPlayer(p)
    ensures OwnedSum(cells, p) == 0
  {
    if cells != [] {
      FreshSum(cells[..|cells| - 1], p);
    }
  }

  // ---- The loop that places grass ----

  /** Since the board `now`, v grass cells were placed, on the free cells among the positions drawn. */
  ghost predicate Growing(before: seq<Field>, now: seq<Field>, cells: seq<Field>, rocks: nat, v: nat, ks: seq<nat>)
  {
    && FreshCells(cells) && Populated(before, cells, rocks, v)
    && Populated(now, cells, 0, v) && Drew(now, cells, Grass, ks)
    && |FreeCells(cells)| == |FreeCells(now)| - v
  }

  lemma GrowOne(before: seq<Field>, now: seq<Field>, cells: seq<Field>, rocks: nat, v: nat, ks: seq<nat>, k: nat)
    requires Growing(before, now, cells, rocks, v, ks) && k < |cells| && v < 5
    ensures cells[k].Occupied() ==> Growing(before, now, cells, rocks, v, ks + [k])
    ensures !cells[k].Occupied() ==>
              Growing(before, now, cells[k := cells[k].(typ := Grass, lifetime := -1, value := v + 1)],
                      rocks, v + 1, ks + [k])
  {
    var f := cells[k].(typ := Grass, lifetime := -1, value := v + 1);
    DrawOne(now, cells, ks, k, Grass, f, 0, v);
    if !cells[k].Occupied() {
      PopulateGrass(before, cells, rocks, v, k);
      PopulateGrass(now, cells, 0, v, k);
      OccupyOne(cells, k, f);
      StillFresh(cells, k, f);
    }
  }

  /** A game as Reset leaves it: nothing played, three flags for each player. */
  ghost predicate NewGame(g: Graph, s: Game)
  {
    && Inv(g, s) && s.state == Running && s.turn == 1 && s.move == 0
    && s.world.score == Two(0, 0) && s.Flags(1) == s.Flags(2) == 3
  }

  /** A populated board with at least one free cell is a valid start. */
  lemma InitialInv(g: Graph, s: Game)
    requires Shaped(g, s) && Symmetric(g)
    requires FreshCells(s.world.cells) && s.world.score == Two(0, 0) && s.world.normal == Two(0, 0)
    requires s.freeCells == |FreeCells(s.world.cells)| > 0
    requires PiecesOk(s.pieces.p1) && PiecesOk(s.pieces.p2) && s.Flags(s.turn) > 0 && s.state == Running
    ensures Inv(g, s)
  {
    var cells := s.world.cells;
    assert AvailCells(cells, 1) == {} && AvailCells(cells, 2) == {};
    FreshSum(cells, 1);
    FreshSum(cells, 2);
  }

  lemma InitialIsNewGame(g: Graph, s: Game)
    requires Shaped(g, s) && Symmetric(g)
    requires FreshCells(s.world.cells) && s.world.score == Two(0, 0) && s.world.normal == Two(0, 0)
    requires s.freeCells == |FreeCells(s.world.cells)| > 0
    requires PiecesOk(s.pieces.p1) && PiecesOk(s.pieces.p2) && s.Flags(1) == s.Flags(2) == 3
    requires s.state == Running && s.turn == 1 && s.move == 0
    ensures NewGame(g, s)
  {
    InitialInv(g, s);
  }

  lemma OccupyOne(cells: seq<Field>, k: nat, f: Field)
    requires k < |cells| && !cells[k].Occupied() && f.Occupied()
    ensures |FreeCells(cells[k := f])| == |FreeCells(cells)| - 1
  {
    assert FreeCells(cells[k := f]) == FreeCells(cells) - {k} && k in FreeCells(cells);
  }

  lemma {:induction false} AllFree(cells: seq<Field>)
    requires forall z :: 0 <= z < |cells| ==> cells[z] == EMPTY
    ensures |FreeCells(cells)| == |cells|
  {
    if cells != [] {
      var n: nat := |cells| - 1;
      AllFree(cells[..n]);
      assert FreeCells(cells) == FreeCells(cells[..n]) + {n};
    }
  }

  lemma StillFresh(cells: seq<Field>, k: nat, f: Field)
    requires FreshCells(cells) && FreshCell(f) && k < |cells|
    ensures FreshCells(cells[k := f])
  {
  }

  /** A start that Reset can produce on any board of at least four cells: one rock and one grass cell. */
  lemma SomeStart(d: Dims) returns (s: Game)
    requires Size(d) >= 4
    ensures NewGame(GraphOf(d), s) && s.freeCells == Size(d) - 2
    ensures Populated(seq(Size(d), _ => EMPTY), s.world.cells, 1, 1)
  {
    var rock, grass := EMPTY.(typ := Rock, lifetime := -1), EMPTY.(typ := Grass, lifetime := -1, value := 1);
    var empty := seq(Size(d), _ => EMPTY);
    AllFree(empty);
    PopulateNothing(empty);
    PopulateRock(empty, empty, 0, 0, 0);
    OccupyOne(empty, 0, rock);
    var cells := empty[0 := rock];
    PopulateGrass(empty, cells, 1, 0, 1);
    OccupyOne(cells, 1, grass);
    StillFresh(empty, 0, rock);
    StillFresh(cells, 1, grass);
    cells := cells[1 := grass];
    var ps: Pieces := [-1, 0, 0, 0, 0, 3, 0, 0];
    s := Game(World(cells, Two(0, 0), Two(0, 0)), Size(d) - 2, 1, 0, 0, Two(ps, ps), Running);
    GraphIsRegular(d);
    InitialIsNewGame(GraphOf(d), s);
  }

  /** A flag as the first move hands the turn to player 2, as long as another cell is free. */
  lemma FlagHandsOver(g: Graph, s: Game) returns (m: FlatMove)
    requires NewGame(g, s) && s.freeCells >= 2
    ensures m.player == 1 && Legal(s, m)
    ensures var t := MakeMove(g, s, m).game; Inv(g, t) && t.state == Running && t.turn == 2
  {
    var z :| z in FreeCells(s.world.cells);
    m := FlatMove(1, 0, z, Flag);
    MakeMoveKeepsInv(g, s, m);
    MovedOpponent(g, s, m);
    FlagsLeft(g, s, m, 1);
    FlagsLeft(g, s, m, 2);
  }
}
