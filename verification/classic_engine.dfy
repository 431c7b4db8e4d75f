/**
 GameEngineClassic of hexz/classic.go as a mutable object, proved against the
 functions and relations of ClassicFlood, ClassicRegions and ClassicRules.
 */
module ClassicEngine {
  import opened Cells
  import opened HexBoard
  import opened Boards
  import opened ClassicFlood
  import opened ClassicRegions
  import opened ClassicRules
  import opened Moves
  import opened Sets

  class Engine {
    const d: Dims
    var b: Board

    ghost function State(): Game
      reads this, b, b.flat
    {
      Game(b.flat[..], b.turn, b.move, b.lastRevealed, b.score, b.pieces, b.state)
    }

    ghost predicate Sized()
      reads this, b
    {
      b.d == d && b.Valid()
    }

    ghost predicate Valid()
      reads this, b, b.flat
    {
      Sized() && Inv(GraphOf(d), State())
    }

    /** Init: an empty board, one of each special piece for both players. */
    constructor (d: Dims)
      ensures this.d == d && Valid() && fresh(b) && fresh(b.flat) && State() == NewGame(d)
    {
      this.d := d;
      b := new Board(d);
      new;
      b.pieces := Two(InitialPieces(), InitialPieces());
      b.state := Running;
      NewGameInv(d);
      assert State().cells == NewGame(d).cells;
    }

    // ---- floodFill ----

    /** The callback that occupyFields passes to floodFill: marks and counts a cell not yet seen in
        iteration k, and says whether to go on from it. */
    method Callback(i: nat, k: nat, ms: array<int>, areas: array<Area>) returns (more: bool)
      requires Sized() && i < b.flat.Length == ms.Length && k < areas.Length
      modifies ms, areas
      ensures more <==> old(ms[i]) != k && !b.flat[i].Occupied()
      ensures Paint(ms[..], areas[k]) == if old(ms[i]) == k then old(Paint(ms[..], areas[k]))
                                         else Mark(b.flat[i], old(Paint(ms[..], areas[k])), i, k)
      ensures forall j :: 0 <= j < areas.Length && j != k ==> areas[j] == old(areas[j])
    {
      if ms[i] == k {
        return false;
      }
      var f, a := b.flat[i], areas[k];
      ms[i] := k;
      if f.Occupied() {
        if f.typ == Flag {
          areas[k] := a.(flags := a.flags.Set(f.owner, a.flags.At(f.owner) + 1));
        } else if f.typ == Dead {
          areas[k] := a.(dead := a.dead + 1);
        }
        return false;
      }
      areas[k] := a.(size := a.size + 1);
      return true;
    }

    /** The recursive flood fill for area k. */
    method FloodFill(x: Idx, k: nat, ms: array<int>, areas: array<Area>)
      requires Sized() && OnBoard(d, x) && ms.Length == b.flat.Length && k < areas.Length
      requires Sheet(GraphOf(d), b.flat[..], ms[..])
      modifies ms, areas
      ensures Paint(ms[..], areas[k]) == Flood(GraphOf(d), b.flat[..], old(Paint(ms[..], areas[k])), Flat(d, x), k)
      ensures forall j :: 0 <= j < areas.Length && j != k ==> areas[j] == old(areas[j])
      decreases Unmarked(ms[..], k), 0
    {
      var i := b.Slot(x);
      ghost var before := ms[..];
      var more := Callback(i, k, ms, areas);
      if more {
        assert i in Unmarked(before, k) && i !in Unmarked(ms[..], k);
        FloodNeighbors(x, k, ms, areas);
      }
    }

    /** The loop of floodFill over the neighbours of x. */
    method FloodNeighbors(x: Idx, k: nat, ms: array<int>, areas: array<Area>)
      requires Sized() && OnBoard(d, x) && ms.Length == b.flat.Length && k < areas.Length
      requires Sheet(GraphOf(d), b.flat[..], ms[..])
      modifies ms, areas
      ensures Paint(ms[..], areas[k])
              == FloodFrom(GraphOf(d), b.flat[..], old(Paint(ms[..], areas[k])), Flat(d, x), k, 0)
      ensures forall j :: 0 <= j < areas.Length && j != k ==> areas[j] == old(areas[j])
      decreases Unmarked(ms[..], k), 10
    {
      ghost var g, at, cells, a := GraphOf(d), Flat(d, x), b.flat[..], Paint(ms[..], areas[k]);
      var ns := b.NeighborsOf(x);
      for i := 0 to |ns|
        invariant b.flat[..] == cells && Sheet(g, cells, ms[..])
        invariant Unmarked(ms[..], k) <= Unmarked(a.ms, k)
        invariant FloodFrom(g, cells, Paint(ms[..], areas[k]), at, k, i) == FloodFrom(g, cells, a, at, k, 0)
        invariant forall j :: 0 <= j < areas.Length && j != k ==> areas[j] == old(areas[j])
      {
        FloodFill(ns[i], k, ms, areas);
      }
    }

    // ---- occupyFields ----

    /** The labelling loop of occupyFields over the neighbours ns of the placed piece. */
    method MeasureAreas(ns: seq<Idx>, ms: array<int>, areas: array<Area>,
                        ghost cells: seq<Field>, ghost nbrs: seq<nat>, ghost base: Area)
      requires Sized() && cells == b.flat[..] && ms.Length == b.flat.Length && |ns| == |nbrs| <= areas.Length
      requires forall k :: 0 <= k < |ns| ==> OnBoard(d, ns[k]) && Flat(d, ns[k]) == nbrs[k]
      requires Sites(GraphOf(d), cells, nbrs) && Labelled(GraphOf(d), cells, nbrs, 0, ms[..], areas[..], base)
      modifies ms, areas
      ensures Labelled(GraphOf(d), cells, nbrs, |nbrs|, ms[..], areas[..], base)
    {
      for k := 0 to |ns|
        invariant cells == b.flat[..] && Labelled(GraphOf(d), cells, nbrs, k, ms[..], areas[..], base)
      {
        MeasureArea(ns[k], k, ms, areas, cells, nbrs, base);
      }
    }

    /** The loop body: a flood from the k-th neighbour y unless it is labelled already. */
    method MeasureArea(y: Idx, k: nat, ms: array<int>, areas: array<Area>,
                       ghost cells: seq<Field>, ghost nbrs: seq<nat>, ghost base: Area)
      requires Sized() && cells == b.flat[..] && OnBoard(d, y) && ms.Length == b.flat.Length
      requires k < |nbrs| && k < areas.Length && nbrs[k] == Flat(d, y)
      requires Sites(GraphOf(d), cells, nbrs) && Labelled(GraphOf(d), cells, nbrs, k, ms[..], areas[..], base)
      modifies ms, areas
      ensures Labelled(GraphOf(d), cells, nbrs, k + 1, ms[..], areas[..], base)
    {
      ghost var g, ms0, areas0 := GraphOf(d), ms[..], areas[..];
      if ms[b.Slot(y)] != -1 {
        SkipStep(g, cells, nbrs, k, ms0, areas0, base);
      } else {
        FloodStep(g, cells, nbrs, k, ms0, areas0, base);
        FloodFill(y, k, ms, areas);
        assert areas[..] == areas0[k := areas[k]];
      }
    }

    /** The loop that counts areas and finds the smallest. */
    method ChooseArea(areas: array<Area>, n: nat) returns (numAreas: nat, minK: int)
      requires n <= areas.Length
      ensures numAreas == CountEligible(areas[..], n) && FirstMin(areas[..], n, minK)
      ensures minK == -1 <==> numAreas == 0
    {
      numAreas, minK := 0, -1;
      for k := 0 to n
        invariant numAreas == CountEligible(areas[..], k) && FirstMin(areas[..], k, minK)
        invariant minK == -1 <==> numAreas == 0
      {
        if areas[k].size > 0 && areas[k].dead == 0 {
          numAreas := numAreas + 1;
          if minK == -1 || areas[minK].size > areas[k].size {
            minK := k;
          }
        }
      }
    }

    /** The loop that fills the chosen area. */
    method FillArea(ms: array<int>, minK: nat, owner: int, ghost R: set<nat>) returns (filled: nat)
      requires Sized() && ms.Length == b.flat.Length && owner > 0
      requires forall z: nat :: z < ms.Length ==> ((ms[z] == minK && !b.flat[z].Occupied()) <==> z in R)
      requires forall z :: z in R ==> z < ms.Length
      modifies b.flat
      ensures Filled(old(b.flat[..]), b.flat[..], R, owner) && filled == |R|
    {
      ghost var cells := b.flat[..];
      filled := 0;
      for r := 0 to |b.fields|
        invariant FillState(cells, b.flat[..], R, owner, RowStart(d, r)) && filled == |Below(R, RowStart(d, r))|
      {
        RowStartStep(d, r);
        assert b.fields[r] == Slice(RowStart(d, r), RowStart(d, r + 1));
        for c := 0 to b.fields[r].end - b.fields[r].start
          invariant FillState(cells, b.flat[..], R, owner, RowStart(d, r) + c)
          invariant filled == |Below(R, RowStart(d, r) + c)|
        {
          var i := b.Slot(Idx(r, c));
          BelowNext(R, i);
          if ms[i] == minK && !b.flat[i].Occupied() {
            filled := filled + 1;
            b.flat[i] := b.flat[i].(owner := owner, lifetime := Lifetime(Normal));
          }
        }
      }
      assert Below(R, b.flat.Length) == R;
    }

    /** The part of occupyFields after the piece is placed on cell x: measure, choose, fill. */
    method TakeRegion(player: int, x: Idx, ct: CellType) returns (num: int)
      requires Sized() && OnBoard(d, x) && IsPlayer(player) && FlagsOwned(b.flat[..])
      modifies b.flat
      ensures Sized()
      ensures Taken(GraphOf(d), old(b.flat[..]), b.flat[..], Flat(d, x), player, ct, num)
    {
      var ms := new int[b.flat.Length](_ => -1);
      var base := BaseArea(player, ct);
      var areas := new Area[6](_ => base);
      GraphIsRegular(d);
      GraphMatches(d, x);
      LabelledStart(GraphOf(d), b.flat[..], GraphOf(d)[Flat(d, x)], ms[..], areas[..], base);
      var ns := b.NeighborsOf(x);
      MeasureAreas(ns, ms, areas, b.flat[..], GraphOf(d)[Flat(d, x)], base);
      num := TakeSmallest(player, x, ct, ms, areas, |ns|);
    }

    method TakeSmallest(player: int, x: Idx, ct: CellType, ms: array<int>, areas: array<Area>, n: nat)
        returns (num: int)
      requires Sized() && OnBoard(d, x) && IsPlayer(player)
      requires Sites(GraphOf(d), b.flat[..], GraphOf(d)[Flat(d, x)]) && n == |GraphOf(d)[Flat(d, x)]| <= areas.Length
      requires Labelled(GraphOf(d), b.flat[..], GraphOf(d)[Flat(d, x)], n, ms[..], areas[..], BaseArea(player, ct))
      modifies b.flat
      ensures Sized()
      ensures Taken(GraphOf(d), old(b.flat[..]), b.flat[..], Flat(d, x), player, ct, num)
    {
      var numAreas, minK := ChooseArea(areas, n);
      ghost var g, cells, ns := GraphOf(d), b.flat[..], GraphOf(d)[Flat(d, x)];
      CountAreas(g, cells, ns, ms[..], areas[..], BaseArea(player, ct));
      num := 1;
      if numAreas > 1 {
        ChosenArea(g, cells, ns, ms[..], areas[..], player, ct, minK);
        var owner := if areas[minK].flags.At(3 - player) > areas[minK].flags.At(player) then 3 - player else player;
        var filled := FillArea(ms, minK, owner, Region(g, cells, ns[minK]));
        num := 1 + filled;
      }
    }

    /** occupyFields computes the occupation of ClassicRules. */
    method OccupyFields(player: int, x: Idx, ct: CellType) returns (num: int)
      requires Sized() && OnBoard(d, x) && IsPlayer(player) && IsPlayerPiece(ct) && CellsOk(b.flat[..])
      modifies b.flat
      ensures Sized()
      ensures Occupation(GraphOf(d), old(b.flat[..]), b.flat[..], Flat(d, x), player, ct, num)
    {
      var i := b.Slot(x);
      ghost var before := b.flat[..];
      b.flat[i] := b.flat[i].(owner := player, typ := ct, hidden := true, lifetime := Lifetime(ct));
      ghost var cells := b.flat[..];
      assert cells == before[i := PlacedPiece(before[i], player, ct)];
      PlacedKeepsOk(before, i, PlacedPiece(before[i], player, ct));
      FlagsAreOwned(cells);
      num := TakeRegion(player, x, ct);
    }

    // ---- Effects ----

    /** applyFireEffect. */
    method ApplyFireEffect(x: Idx)
      requires Sized() && OnBoard(d, x)
      modifies b.flat
      ensures FireStep(GraphOf(d), old(b.flat[..]), b.flat[..], Flat(d, x))
    {
      GraphIsRegular(d);
      ghost var g, at, cells := GraphOf(d), Flat(d, x), b.flat[..];
      var ns := b.NeighborsOf(x);
      for i := 0 to |ns|
        invariant b.flat.Length == |cells|
        invariant forall z: nat :: z < |g| ==> b.flat[z] == if z in g[at][..i] then Burnt(cells[z]) else cells[z]
      {
        var k := b.Slot(ns[i]);
        assert k == g[at][i];
        assert g[at][..i + 1] == g[at][..i] + [g[at][i]];
        b.flat[k] := b.flat[k].(owner := 0, typ := Dead, hidden := false, lifetime := Lifetime(Dead));
      }
      assert g[at][..|ns|] == g[at];
    }

    /** applyPestEffect: one row-by-row pass over the board has the effect of a simultaneous step. */
    method ApplyPestEffect()
      requires Sized() && CellsOk(b.flat[..])
      modifies b.flat
      ensures PestStep(GraphOf(d), old(b.flat[..]), b.flat[..])
    {
      GraphIsRegular(d);
      ghost var g, cells := GraphOf(d), b.flat[..];
      for r := 0 to |b.fields|
        invariant PestState(g, cells, b.flat[..], RowStart(d, r), 0)
      {
        RowStartStep(d, r);
        assert b.fields[r] == Slice(RowStart(d, r), RowStart(d, r + 1));
        for c := 0 to b.fields[r].end - b.fields[r].start
          invariant PestState(g, cells, b.flat[..], RowStart(d, r) + c, 0)
        {
          SpreadPest(Idx(r, c), cells);
        }
      }
      PestDone(g, cells, b.flat[..]);
    }

    /** The loop body of applyPestEffect for one cell. */
    method SpreadPest(x: Idx, ghost cells: seq<Field>)
      requires Sized() && OnBoard(d, x) && CellsOk(cells) && Regular(GraphOf(d))
      requires PestState(GraphOf(d), cells, b.flat[..], Flat(d, x), 0)
      modifies b.flat
      ensures PestState(GraphOf(d), cells, b.flat[..], Flat(d, x) + 1, 0)
    {
      ghost var g, at := GraphOf(d), Flat(d, x);
      var p := b.Slot(x);
      PestSource(g, cells, b.flat[..], p, at, 0);
      if b.flat[p].typ == Pest && b.flat[p].lifetime < Lifetime(Pest) {
        var ns := b.NeighborsOf(x);
        for i := 0 to |ns|
          invariant PestState(g, cells, b.flat[..], at, i)
        {
          var k := b.Slot(ns[i]);
          PestSource(g, cells, b.flat[..], p, at, i);
          PestNext(g, cells, b.flat[..], at, i);
          var f := b.flat[k];
          if f.owner > 0 && f.owner != b.flat[p].owner && f.typ == Normal {
            b.flat[k] := f.(owner := b.flat[p].owner, typ := Pest, lifetime := Lifetime(Pest));
          }
        }
        PestRound(g, cells, b.flat[..], at);
      } else {
        PestSkip(g, cells, b.flat[..], at);
      }
    }

    /** revealHiddenMoves. */
    method RevealHiddenMoves()
      requires Sized()
      modifies b.flat
      ensures AllRevealed(old(b.flat[..]), b.flat[..])
    {
      for i := 0 to b.flat.Length
        invariant forall z :: 0 <= z < i ==> b.flat[z] == old(b.flat[z]).(hidden := false)
        invariant forall z :: i <= z < b.flat.Length ==> b.flat[z] == old(b.flat[z])
      {
        b.flat[i] := b.flat[i].(hidden := false);
      }
    }

    /** The clean-up loop of MakeMove. */
    method AgeCells()
      requires Sized()
      modifies b.flat
      ensures AllAged(old(b.flat[..]), b.flat[..])
    {
      for i := 0 to b.flat.Length
        invariant forall z :: 0 <= z < i ==> b.flat[z] == Aged(old(b.flat[z]))
        invariant forall z :: i <= z < b.flat.Length ==> b.flat[z] == old(b.flat[z])
      {
        if b.flat[i].Occupied() && b.flat[i].lifetime == 0 {
          b.flat[i] := b.flat[i].(owner := 0, hidden := false, typ := Normal, lifetime := Lifetime(Normal));
        }
        if b.flat[i].lifetime > 0 {
          b.flat[i] := b.flat[i].(lifetime := b.flat[i].lifetime - 1);
        }
      }
    }

    /** recomputeScoreAndState; owners index the two scores, so they have to be in range. */
    method RecomputeScoreAndState()
      requires Sized() && CellsOk(b.flat[..])
      modifies b`score, b`state, b.flat
      ensures Scored(old(b.flat[..]), old(b.state), b.flat[..], b.score, b.state)
    {
      var s1, s2, open := 0, 0, 0;
      ghost var cells := b.flat[..];
      for i := 0 to b.flat.Length
        invariant b.flat[..] == cells && open >= 0 && b.state == old(b.state)
        invariant s1 == |Below(Visible(cells, 1), i)| && s2 == |Below(Visible(cells, 2), i)|
        invariant open == 0 <==> forall z :: 0 <= z < i ==> cells[z].Occupied()
      {
        var f := b.flat[i];
        assert CellOk(cells[i]);
        BelowNext(Visible(cells, 1), i);
        BelowNext(Visible(cells, 2), i);
        if f.owner > 0 && !f.hidden {
          if f.owner == 1 { s1 := s1 + 1; } else { s2 := s2 + 1; }
        }
        if !f.Occupied() {
          open := open + 1;
        }
      }
      assert Below(Visible(cells, 1), |cells|) == Visible(cells, 1);
      assert Below(Visible(cells, 2), |cells|) == Visible(cells, 2);
      b.score := Two(s1, s2);
      if open == 0 {
        RevealHiddenMoves();
        b.state := Finished;
      }
    }

    // ---- MakeMove ----

    /** The branches of MakeMove that change the target cell and its surroundings. */
    method PlacePiece(m: EngineMove) returns (num: int)
      requires Sized() && CellsOk(b.flat[..]) && IsPlayer(b.turn)
      requires OnBoard(d, Idx(m.row, m.col)) && Legal(State(), Flatten(d, m))
      modifies b.flat
      ensures Sized()
      ensures Placement(GraphOf(d), old(State()), Flatten(d, m), b.flat[..], num)
    {
      var x := Idx(m.row, m.col);
      var i := b.Slot(x);
      var f, turn := b.flat[i], b.turn;
      num := 0;
      if f.Occupied() {
        if f.hidden && f.owner == 3 - turn {
          b.flat[i] := f.(owner := 0, typ := Dead, lifetime := Lifetime(Dead));
        } else {
          b.flat[i] := f.(owner := turn, typ := Death, hidden := false, lifetime := Lifetime(Death));
        }
      } else if m.cellType == Fire {
        b.flat[i] := f.(owner := turn, typ := Fire, lifetime := Lifetime(Fire));
        ghost var burning := b.flat[..];
        assert burning == old(b.flat[..])[i := f.(owner := turn, typ := Fire, lifetime := Lifetime(Fire))];
        ApplyFireEffect(x);
      } else {
        num := OccupyFields(turn, x, m.cellType);
      }
    }

    /** The reveal block of MakeMove. */
    method Reveal()
      requires Sized() && CellsOk(b.flat[..])
      modifies b`lastRevealed, b.flat
      ensures RevealStep(GraphOf(d), old(b.flat[..]), b.flat[..]) && b.lastRevealed == b.move
    {
      ghost var before := b.flat[..];
      RevealHiddenMoves();
      ghost var shown := b.flat[..];
      PointwiseKeepsOk(before, shown);
      ApplyPestEffect();
      ghost var sick := b.flat[..];
      AgeCells();
      b.lastRevealed := b.move;
    }

    /** MakeMove accepts exactly the legal moves; an accepted one is a Step of ClassicRules. */
    method MakeMove(m: EngineMove) returns (ok: bool)
      requires Valid()
      modifies b`turn, b`move, b`lastRevealed, b`score, b`pieces, b`state, b.flat
      ensures Valid()
      ensures ok == Legal(old(State()), Flatten(d, m))
      ensures !ok ==> State() == old(State())
      ensures ok ==> Step(GraphOf(d), old(State()), Flatten(d, m), State())
    {
      var turn := b.turn;
      if m.player != turn || m.move != b.move {
        return false;
      }
      if !b.IsValidIdx(Idx(m.row, m.col)) || !IsPlayerPiece(m.cellType) {
        return false;
      }
      if m.cellType != Normal && b.pieces.At(turn)[Code(m.cellType)] == 0 {
        return false;
      }
      var f := b.flat[b.Slot(Idx(m.row, m.col))];
      if f.Occupied() && !(f.hidden && f.owner == 3 - turn) && m.cellType != Death {
        return false;
      }
      Execute(m);
      StepKeepsInv(GraphOf(d), old(State()), Flatten(d, m), State());
      ok := true;
    }

    /** The bookkeeping of MakeMove: move number, pieces and turn. */
    method UpdateCounters(m: EngineMove, moves: bool)
      requires IsPlayer(b.turn)
      modifies b`turn, b`move, b`pieces
      ensures b.move == old(b.move) + (if moves then 1 else 0)
      ensures b.turn == (if old(b.turn) + 1 > 2 then 1 else old(b.turn) + 1)
      ensures b.pieces == if m.cellType == Normal then old(b.pieces)
                          else var ps := old(b.pieces).At(old(b.turn));
                               old(b.pieces).Set(old(b.turn), ps[Code(m.cellType) := ps[Code(m.cellType)] - 1])
    {
      if moves {
        b.move := b.move + 1;
      }
      if m.cellType != Normal {
        var ps := b.pieces.At(b.turn);
        b.pieces := b.pieces.Set(b.turn, ps[Code(m.cellType) := ps[Code(m.cellType)] - 1]);
      }
      b.turn := b.turn + 1;
      if b.turn > 2 {
        b.turn := 1;
      }
    }

    /** The end of MakeMove: reveal the board if due, then recompute score and state. */
    method Conclude(due: bool)
      requires Sized() && CellsOk(b.flat[..])
      modifies b`lastRevealed, b`score, b`state, b.flat
      ensures Sized()
      ensures exists aged :: && (if due then RevealStep(GraphOf(d), old(b.flat[..]), aged) && b.lastRevealed == b.move
                                 else aged == old(b.flat[..]) && b.lastRevealed == old(b.lastRevealed))
                             && Scored(aged, old(b.state), b.flat[..], b.score, b.state)
    {
      ghost var placed := b.flat[..];
      if due {
        Reveal();
        RevealKeepsOk(GraphOf(d), placed, b.flat[..]);
      }
      ghost var aged := b.flat[..];
      RecomputeScoreAndState();
      assert Scored(aged, old(b.state), b.flat[..], b.score, b.state);
    }

    /** The first half of an accepted move; `due` says whether the board is revealed. */
    method PlaceAndCount(m: EngineMove) returns (num: int, due: bool)
      requires Sized() && CellsOk(b.flat[..]) && IsPlayer(b.turn)
      requires OnBoard(d, Idx(m.row, m.col)) && Legal(State(), Flatten(d, m))
      modifies b`turn, b`move, b`pieces, b.flat
      ensures Sized()
      ensures Placement(GraphOf(d), old(State()), Flatten(d, m), b.flat[..], num)
      ensures due == Reveals(old(State()), Flatten(d, m), num)
      ensures b.turn == (if old(b.turn) + 1 > 2 then 1 else old(b.turn) + 1)
      ensures b.move == NextMove(old(State()), Flatten(d, m)) && b.pieces == UsePiece(old(State()), Flatten(d, m))
    {
      var f := b.flat[b.Slot(Idx(m.row, m.col))];
      var conflict := f.Occupied() && f.hidden && f.owner == 3 - b.turn;
      num := PlacePiece(m);
      UpdateCounters(m, conflict || !f.Occupied());
      due := num > 1 || b.move - b.lastRevealed == 4 || (m.cellType != Normal && m.cellType != Flag) || conflict;
    }

    /** The part of MakeMove after all tests have passed. */
    method Execute(m: EngineMove)
      requires Sized() && CellsOk(b.flat[..]) && IsPlayer(b.turn)
      requires OnBoard(d, Idx(m.row, m.col)) && Legal(State(), Flatten(d, m))
      modifies b`turn, b`move, b`lastRevealed, b`score, b`pieces, b`state, b.flat
      ensures Sized()
      ensures Step(GraphOf(d), old(State()), Flatten(d, m), State())
    {
      ghost var g, s, fm := GraphOf(d), State(), Flatten(d, m);
      var num, due := PlaceAndCount(m);
      ghost var placed := b.flat[..];
      PlacementKeepsOk(g, s, fm, placed, num);
      Conclude(due);
      StepHolds(g, s, fm, placed, num, State());
    }
  }

  lemma StepHolds(g: Graph, s: Game, m: FlatMove, placed: seq<Field>, num: int, t: Game)
    requires |s.cells| == |g| && Legal(s, m) && Placement(g, s, m, placed, num) && |placed| == |g|
    requires t.turn == (if s.turn + 1 > 2 then 1 else s.turn + 1)
    requires t.move == NextMove(s, m) && t.pieces == UsePiece(s, m)
    requires exists aged :: && (if Reveals(s, m, num) then RevealStep(g, placed, aged) && t.lastRevealed == t.move
                                else aged == placed && t.lastRevealed == s.lastRevealed)
                            && Scored(aged, s.state, t.cells, t.score, t.state)
    ensures Step(g, s, m, t)
  {
    var aged :| && (if Reveals(s, m, num) then RevealStep(g, placed, aged) && t.lastRevealed == t.move
                    else aged == placed && t.lastRevealed == s.lastRevealed)
                && Scored(aged, s.state, t.cells, t.score, t.state);
    assert Concluded(g, s, m, placed, num, aged, t);
  }

  // ---- Lemmas about the loops ----

  ghost predicate FillState(before: seq<Field>, now: seq<Field>, R: set<nat>, owner: int, pos: int)
  {
    |now| == |before| && forall z: nat :: z < |before| ==>
      now[z] == if z in R && z < pos then before[z].(owner := owner, lifetime := Lifetime(Normal)) else before[z]
  }

  lemma FlagsAreOwned(cells: seq<Field>)
    requires CellsOk(cells)
    ensures FlagsOwned(cells)
  {
    forall z | 0 <= z < |cells| && cells[z].typ == Flag
      ensures cells[z].owner == 1 || cells[z].owner == 2
    {
      assert CellOk(cells[z]);
    }
  }

  lemma CountAreas(g: Graph, cells: seq<Field>, ns: seq<nat>, ms: seq<int>, areas: seq<Area>, base: Area)
    requires Sites(g, cells, ns) && Labelled(g, cells, ns, |ns|, ms, areas, base)
    ensures CountEligible(areas, |ns|) == |Candidates(g, cells, ns, |ns|)|
  {
    forall k | 0 <= k < |ns|
      ensures Eligible(areas[k]) <==> Chosen(g, cells, ns, k)
    {
      EligibleIff(g, cells, ns, ms, areas, base, k);
    }
    CountIsCandidates(g, cells, ns, areas, |ns|);
  }

  /** The area that the program picks is the region to take, and its counters decide who gets it. */
  lemma ChosenArea(g: Graph, cells: seq<Field>, ns: seq<nat>, ms: seq<int>, areas: seq<Area>,
                   player: int, ct: CellType, minK: nat)
    requires Sites(g, cells, ns) && Labelled(g, cells, ns, |ns|, ms, areas, BaseArea(player, ct)) && IsPlayer(player)
    requires minK < |ns| && FirstMin(areas, |ns|, minK)
    ensures Smallest(g, cells, ns, minK)
    ensures var R, a := Region(g, cells, ns[minK]), areas[minK];
            (if a.flags.At(3 - player) > a.flags.At(player) then 3 - player else player)
            == Occupator(g, cells, R, player, ct)
    ensures forall z: nat :: z < |g| ==> ((ms[z] == minK && !cells[z].Occupied()) <==> z in Region(g, cells, ns[minK]))
    ensures forall z :: z in Region(g, cells, ns[minK]) ==> z < |g|
  {
    var base := BaseArea(player, ct);
    FirstMinIsSmallest(g, cells, ns, ms, areas, base, minK);
    EligibleIff(g, cells, ns, ms, areas, base, minK);
    forall z: nat | z < |g|
      ensures (ms[z] == minK && !cells[z].Occupied()) <==> z in Region(g, cells, ns[minK])
    {
      LabelledLeader(g, cells, ns, ms, areas, base, minK, z);
    }
  }

  // ---- The pest pass ----

  /** Some cell before position pos, or cell pos through one of its first i neighbours, infects z. */
  ghost predicate ExposedBy(g: Graph, cells: seq<Field>, z: nat, pos: int, i: nat)
    requires |cells| == |g| && z < |g|
  {
    || (exists y: nat :: y < |g| && y < pos && z in g[y] && Infects(cells[y], cells[z]))
    || (0 <= pos < |g| && i <= |g[pos]| && z in g[pos][..i] && Infects(cells[pos], cells[z]))
  }

  ghost predicate PestState(g: Graph, cells: seq<Field>, now: seq<Field>, pos: int, i: nat)
    requires Regular(g)
  {
    && |now| == |cells| == |g|
    && forall z: nat :: z < |g| ==> now[z] == if ExposedBy(g, cells, z, pos, i) then Infected(cells[z]) else cells[z]
  }

  /** A cell acts as a pest during the pass exactly if it did on the old board. */
  lemma PestSource(g: Graph, cells: seq<Field>, now: seq<Field>, p: nat, pos: int, i: nat)
    requires Regular(g) && p < |g| && PestState(g, cells, now, pos, i)
    ensures now[p].typ == Pest && now[p].lifetime < Lifetime(Pest) ==> now[p] == cells[p]
    ensures cells[p].typ == Pest ==> now[p] == cells[p]
  {
  }

  /** The test and the update of one neighbour of a source, in terms of the old board. */
  lemma PestNext(g: Graph, cells: seq<Field>, now: seq<Field>, at: nat, i: nat)
    requires Regular(g) && at < |g| && i < |g[at]| && CellsOk(cells) && PestState(g, cells, now, at, i)
    requires cells[at].typ == Pest && cells[at].lifetime < Lifetime(Pest) && now[at] == cells[at]
    ensures var k := g[at][i];
            var now' := if now[k].owner > 0 && now[k].owner != now[at].owner && now[k].typ == Normal
                        then now[k := now[k].(owner := now[at].owner, typ := Pest, lifetime := Lifetime(Pest))]
                        else now;
            PestState(g, cells, now', at, i + 1)
  {
    var k := g[at][i];
    assert g[at][..i + 1] == g[at][..i] + [k];
    assert CellOk(cells[at]) && CellOk(cells[k]);
    assert ExposedBy(g, cells, k, at, i + 1) <==> ExposedBy(g, cells, k, at, i) || Infects(cells[at], cells[k]);
    forall z: nat | z < |g| && z != k
      ensures ExposedBy(g, cells, z, at, i + 1) <==> ExposedBy(g, cells, z, at, i)
    {
    }
  }

  lemma PestRound(g: Graph, cells: seq<Field>, now: seq<Field>, at: nat)
    requires Regular(g) && at < |g| && PestState(g, cells, now, at, |g[at]|)
    ensures PestState(g, cells, now, at + 1, 0)
  {
    assert g[at][..|g[at]|] == g[at];
    forall z: nat | z < |g|
      ensures ExposedBy(g, cells, z, at + 1, 0) <==> ExposedBy(g, cells, z, at, |g[at]|)
    {
    }
  }

  lemma PestSkip(g: Graph, cells: seq<Field>, now: seq<Field>, at: nat)
    requires Regular(g) && at < |g| && PestState(g, cells, now, at, 0)
    requires !(now[at].typ == Pest && now[at].lifetime < Lifetime(Pest))
    ensures PestState(g, cells, now, at + 1, 0)
  {
    PestSource(g, cells, now, at, at, 0);
    forall z: nat | z < |g|
      ensures ExposedBy(g, cells, z, at + 1, 0) <==> ExposedBy(g, cells, z, at, 0)
    {
      assert !Infects(cells[at], cells[z]);
    }
  }

  lemma PestDone(g: Graph, cells: seq<Field>, now: seq<Field>)
    requires Regular(g) && PestState(g, cells, now, |g|, 0)
    ensures PestStep(g, cells, now)
  {
    forall z: nat | z < |g|
      ensures ExposedBy(g, cells, z, |g|, 0) <==> Exposed(g, cells, z)
    {
    }
  }
}
