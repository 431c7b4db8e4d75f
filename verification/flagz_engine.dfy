/**
 GameEngineFlagz of hexz/flagz.go as a mutable object.  Each method is tied to the
 functions of FlagzRules; `Valid` holds the invariant of FlagzGame.
 */
module FlagzEngine {
  import opened Cells
  import opened HexBoard
  import opened Boards
  import opened FlagzRules
  import opened FlagzSpread
  import opened FlagzCaches
  import opened FlagzGame
  import opened FlagzSetup
  import opened Moves
  import opened Options
  import opened Sets
  import Winners

  /** rand.Intn: some value below n; it panics for n <= 0. */
  method Intn(n: int) returns (k: nat)
    requires n > 0
    ensures k < n
  {
    k :| 0 <= k < n;
  }

  /** A source of values below a bound, as rand.Intn gives them. */
  method Source() returns (intn: int -> int)
    ensures forall n :: n > 0 ==> 0 <= intn(n) < n
  {
    var k :| 0 <= k;
    intn := n => if n > 0 then k % n else 0;
  }

  /** rand.Float64: some value in [0, 1). */
  method Float64() returns (x: real)
    ensures 0.0 <= x < 1.0
  {
    x :| 0.0 <= x < 1.0;
  }

  class Engine {
    const d: Dims
    var b: Board
    var freeCells: int
    var normalMoves: Two<int>

    ghost function World(): World
      reads this, b, b.flat
    {
      FlagzRules.World(b.flat[..], b.score, normalMoves)
    }

    ghost function State(): Game
      reads this, b, b.flat
    {
      Game(World(), freeCells, b.turn, b.move, b.lastRevealed, b.pieces, b.state)
    }

    ghost predicate Sized()
      reads this, b
    {
      b.d == d && b.Valid()
    }

    ghost predicate Valid()
      reads this, b, b.flat
    {
      Sized() && Inv(GraphOf(d), State())
    }

    // ---- Setting up ----

    /** The first loop of PopulateInitialCells: as many draws as there are cells, unless all rocks are placed
        before; `ks` are the positions drawn. */
    method PlaceRocks() returns (i: nat, ghost ks: seq<nat>)
      requires Sized() && FreshCells(b.flat[..])
      modifies b.flat
      ensures Sized() && FreshCells(b.flat[..]) && i <= NUM_ROCK && Populated(old(b.flat[..]), b.flat[..], i, 0)
      ensures |FreeCells(b.flat[..])| == |FreeCells(old(b.flat[..]))| - i
      ensures Drew(old(b.flat[..]), b.flat[..], Rock, ks) && (i < 15 ==> |ks| == b.flat.Length)
    {
      ghost var before := b.flat[..];
      PopulateNothing(before);
      var n, j := b.flat.Length, 0;
      i, ks := 0, [];
      while j < n && i < NUM_ROCK
        invariant FreshCells(b.flat[..]) && i <= NUM_ROCK && Populated(before, b.flat[..], i, 0)
        invariant |ks| == j <= n && Drew(before, b.flat[..], Rock, ks)
        invariant |FreeCells(b.flat[..])| == |FreeCells(before)| - i
        decreases n - j
      {
        var k := Intn(n);
        DrawOne(before, b.flat[..], ks, k, Rock, b.flat[k].(typ := Rock, lifetime := -1), i, 0);
        ks := ks + [k];
        if !b.flat[k].Occupied() {
          PopulateRock(before, b.flat[..], i, 0, k);
          i := i + 1;
          OccupyOne(b.flat[..], k, b.flat[k].(typ := Rock, lifetime := -1));
          b.flat[k] := b.flat[k].(typ := Rock, lifetime := -1);
        }
        j := j + 1;
      }
    }

    /** The second loop of PopulateInitialCells, likewise. */
    method PlaceGrass(ghost before: seq<Field>, ghost i: nat) returns (v: nat, ghost ks: seq<nat>)
      requires Sized() && FreshCells(b.flat[..]) && Populated(before, b.flat[..], i, 0)
      modifies b.flat
      ensures Sized() && FreshCells(b.flat[..]) && v <= NUM_GRASS && Populated(before, b.flat[..], i, v)
      ensures |FreeCells(b.flat[..])| == |FreeCells(old(b.flat[..]))| - v
      ensures Drew(old(b.flat[..]), b.flat[..], Grass, ks) && (v < 5 ==> |ks| == b.flat.Length)
    {
      ghost var now := b.flat[..];
      PopulateNothing(now);
      var n, j := b.flat.Length, 0;
      v, ks := 0, [];
      while j < n && v < NUM_GRASS
        invariant |ks| == j <= n && v <= NUM_GRASS && Growing(before, now, b.flat[..], i, v, ks)
        decreases n - j
      {
        var k := Intn(n);
        GrowOne(before, now, b.flat[..], i, v, ks, k);
        ks := ks + [k];
        if !b.flat[k].Occupied() {
          v := v + 1;
          b.flat[k] := b.flat[k].(typ := Grass, lifetime := -1, value := v);
        }
        j := j + 1;
      }
    }

    /** PopulateInitialCells: rocks and grass on free cells, and the counters that go with them. */
    method PopulateInitialCells()
      requires Sized() && FreshCells(b.flat[..])
      modifies `freeCells, `normalMoves, b.flat
      ensures Sized() && FreshCells(b.flat[..])
      ensures exists rocks: nat, grass: nat ::
                && rocks <= 15 && grass <= 5 && Populated(old(b.flat[..]), b.flat[..], rocks, grass)
                && freeCells == |FreeCells(b.flat[..])| == |FreeCells(old(b.flat[..]))| - rocks - grass
                && (b.flat.Length > 0 && |FreeCells(old(b.flat[..]))| == b.flat.Length ==> rocks >= 1)
      ensures normalMoves == Two(0, 0)
    {
      ghost var before := b.flat[..];
      var i, rocks := PlaceRocks();
      RocksArePlaced(before, b.flat[..], rocks, i);
      var v, grass := PlaceGrass(before, i);
      freeCells := 0;
      ghost var after, free := b.flat[..], FreeCells(b.flat[..]);
      for k := 0 to b.flat.Length
        invariant b.flat[..] == after && freeCells == |Below(free, k)|
      {
        BelowNext(free, k);
        if !b.flat[k].Occupied() {
          freeCells := freeCells + 1;
        }
      }
      BelowAll(free, b.flat.Length);
      normalMoves := Two(0, 0);
      assert Populated(before, b.flat[..], i, v);
    }

    method InitializeResources()
      modifies b`pieces
      ensures PiecesOk(b.pieces.p1) && PiecesOk(b.pieces.p2)
      ensures b.pieces.p1[Code(Flag)] == b.pieces.p2[Code(Flag)] == 3
    {
      var ps: Pieces := [0, 0, 0, 0, 0, 0, 0, 0];
      ps := ps[Code(Normal) := -1];
      ps := ps[Code(Flag) := 3];
      b.pieces := Two(ps, ps);
    }

    /** Reset: a new board, populated at random, with a game that is running and can be played. */
    method Reset()
      requires Size(d) > 20
      modifies this
      ensures Valid() && fresh(b) && fresh(b.flat)
      ensures NewGame(GraphOf(d), State()) && Size(d) - 20 <= freeCells < Size(d)
    {
      b := new Board(d);
      b.score := Two(0, 0);
      InitializeResources();
      AllFree(b.flat[..]);
      PopulateInitialCells();
      b.state := Running;
      GraphIsRegular(d);
      InitialIsNewGame(GraphOf(d), State());
    }

    /** NewGameEngineFlagz. */
    constructor (d: Dims)
      requires Size(d) > 20
      ensures this.d == d && Valid() && fresh(b) && fresh(b.flat)
      ensures NewGame(GraphOf(d), State())
    {
      this.d := d;
      b := new Board(d);
      freeCells, normalMoves := 0, Two(0, 0);
      new;
      Reset();
    }

    constructor Make(d: Dims, b: Board, freeCells: int, normalMoves: Two<int>)
      ensures this.d == d && this.b == b && this.freeCells == freeCells && this.normalMoves == normalMoves
    {
      this.d, this.b, this.freeCells, this.normalMoves := d, b, freeCells, normalMoves;
    }

    /** Clone: same state, no shared mutable part. */
    method Clone() returns (e: Engine)
      requires Valid()
      ensures fresh(e) && fresh(e.b) && fresh(e.b.flat)
      ensures e.d == d && e.Valid() && e.State() == State()
    {
      var c := b.Copy();
      e := new Engine.Make(d, c, freeCells, normalMoves);
    }

    // ---- Playing ----

    /** The recursive in-place update computes Spread; it does nothing for an unowned cell. */
    method UpdateNeighborCells(x: Idx)
      requires Sized() && OnBoard(d, x) && CellsOk(b.flat[..])
      requires b.flat[Flat(d, x)].typ != Grass
      modifies `normalMoves, b`score, b.flat
      ensures Sized()
      ensures !old(Owned(b.flat[Flat(d, x)])) ==> World() == old(World())
      ensures old(Owned(b.flat[Flat(d, x)])) ==>
                && Spreading(GraphOf(d), old(World()), Flat(d, x), 0)
                && World() == Spread(GraphOf(d), old(World()), Flat(d, x), 0)
      decreases GrassCells(b.flat[..]), 2
    {
      GraphIsRegular(d);
      assert CellOk(b.flat[..][Flat(d, x)]);
      if b.flat[b.Slot(x)].owner != 0 {
        UpdateAllNeighbors(x);
      }
    }

    /** The loop of updateNeighborCells. */
    method UpdateAllNeighbors(x: Idx)
      requires Sized() && OnBoard(d, x) && CellsOk(b.flat[..])
      requires Spreading(GraphOf(d), World(), Flat(d, x), 0)
      modifies `normalMoves, b`score, b.flat
      ensures Sized()
      ensures World() == Spread(GraphOf(d), old(World()), Flat(d, x), 0)
      decreases GrassCells(b.flat[..]), 1
    {
      ghost var g, at, w0 := GraphOf(d), Flat(d, x), World();
      var ns := b.NeighborsOf(x);
      for i := 0 to |ns|
        invariant Sized()
        invariant Spreading(g, World(), at, i) && CellsOk(b.flat[..])
        invariant GrassCells(b.flat[..]) <= GrassCells(w0.cells)
        invariant Spread(g, World(), at, i) == Spread(g, w0, at, 0)
      {
        UpdateNeighbor(x, i, ns[i]);
      }
    }

    /** The loop body of updateNeighborCells: one step of Spread. */
    method UpdateNeighbor(x: Idx, ghost i: nat, y: Idx)
      requires Sized() && OnBoard(d, x) && OnBoard(d, y) && CellsOk(b.flat[..])
      requires Spreading(GraphOf(d), World(), Flat(d, x), i) && i < |GraphOf(d)[Flat(d, x)]|
      requires GraphOf(d)[Flat(d, x)][i] == Flat(d, y)
      modifies `normalMoves, b`score, b.flat
      ensures Sized() && CellsOk(b.flat[..])
      ensures GrassCells(b.flat[..]) <= old(GrassCells(b.flat[..]))
      ensures Spreading(GraphOf(d), World(), Flat(d, x), i + 1)
      ensures Spread(GraphOf(d), World(), Flat(d, x), i + 1) == Spread(GraphOf(d), old(World()), Flat(d, x), i)
      decreases GrassCells(b.flat[..]), 0
    {
      ghost var g, at, w := GraphOf(d), Flat(d, x), World();
      var f, k := b.flat[b.Slot(x)], b.Slot(y);
      var nb := b.flat[k];
      assert CellOk(w.cells[at]);
      if !nb.Occupied() {
        NoteGrows(g, w, at, i);
        NoteInPlace(k, f.owner, f.value);
      } else if nb.typ == Grass && nb.value <= f.value {
        CaptureGrows(g, w, at, i);
        SpreadStaysOk(g, Capture(w, k, f.owner), k, 0);
        CaptureInPlace(k, f.owner);
        UpdateNeighborCells(y);
      }
    }

    /** The free-neighbour branch of the update: one cell's cache and the move counter. */
    method NoteInPlace(k: nat, p: int, v: int)
      requires Sized() && k < b.flat.Length && !b.flat[k].Occupied() && IsPlayer(p) && 0 <= v <= MAX_VALUE
      modifies `normalMoves, b.flat
      ensures Sized()
      ensures World() == Note(old(World()), k, p, v)
    {
      var nb := b.flat[k];
      if v == MAX_VALUE {
        if nb.nextVal.At(p) > 0 {
          normalMoves := normalMoves.Set(p, normalMoves.At(p) - 1);
        }
        b.flat[k] := nb.(blocked := nb.blocked.Set(p, true), nextVal := nb.nextVal.Set(p, -1));
      } else if nb.nextVal.At(p) == 0 {
        normalMoves := normalMoves.Set(p, normalMoves.At(p) + 1);
        b.flat[k] := nb.(nextVal := nb.nextVal.Set(p, v + 1));
      } else if nb.nextVal.At(p) > v + 1 {
        b.flat[k] := nb.(nextVal := nb.nextVal.Set(p, v + 1));
      }
      assert World().cells == Note(old(World()), k, p, v).cells;
    }

    /** The grass branch of the update, before the recursive call. */
    method CaptureInPlace(k: nat, p: int)
      requires Sized() && k < b.flat.Length && IsPlayer(p)
      modifies b`score, b.flat
      ensures Sized()
      ensures World() == Capture(old(World()), k, p)
    {
      b.flat[k] := b.flat[k].(typ := Normal);
      b.flat[k] := b.flat[k].(owner := p);
      b.score := b.score.Set(p, b.score.At(p) + b.flat[k].value);
      assert World().cells == Capture(old(World()), k, p).cells;
    }

    /** recomputeState. */
    method Recompute()
      modifies b`turn, b`state
      ensures State() == RecomputeState(old(State()))
    {
      var canMove1 := normalMoves.p1 > 0 || (freeCells > 0 && b.pieces.p1[Code(Flag)] > 0);
      var canMove2 := normalMoves.p2 > 0 || (freeCells > 0 && b.pieces.p2[Code(Flag)] > 0);
      if !canMove1 && canMove2 {
        b.turn := 2;
      } else if canMove1 && !canMove2 {
        b.turn := 1;
      }
      var s := b.score;
      if freeCells == 0 || !(canMove1 || canMove2) || (s.p1 > s.p2 && !canMove2) || (s.p2 > s.p1 && !canMove1) {
        b.state := Finished;
      }
    }

    /** Writing a normal piece of value `val`. */
    method PlaceNormal(k: nat, turn: int, val: int)
      requires Sized() && k < b.flat.Length && IsPlayer(turn) && b.flat[k].nextVal.At(turn) == val > 0
      modifies `normalMoves, `freeCells, b`score, b.flat
      ensures Sized() && freeCells == old(freeCells) - 1
      ensures World() == Place(old(World()), k, turn, Normal, val)
    {
      var f := b.flat[k];
      b.flat[k] := f.(owner := turn, typ := Normal, lifetime := -1, hidden := false, value := val);
      b.score := b.score.Set(turn, b.score.At(turn) + val);
      freeCells := freeCells - 1;
      normalMoves := normalMoves.Set(turn, normalMoves.At(turn) - 1);
      if f.nextVal.At(3 - turn) > 0 {
        normalMoves := normalMoves.Set(3 - turn, normalMoves.At(3 - turn) - 1);
      }
      assert World().cells == Place(old(World()), k, turn, Normal, val).cells;
    }

    /** Writing a flag. */
    method PlaceFlag(k: nat, turn: int)
      requires Sized() && k < b.flat.Length && IsPlayer(turn)
      modifies `normalMoves, `freeCells, b`pieces, b.flat
      ensures Sized() && freeCells == old(freeCells) - 1
      ensures b.pieces == old(b.pieces).Set(turn, UseFlag(old(b.pieces).At(turn)))
      ensures World() == Place(old(World()), k, turn, Flag, 0)
    {
      var f := b.flat[k];
      b.flat[k] := f.(owner := turn, typ := Flag, lifetime := -1, hidden := false, value := 0);
      b.pieces := b.pieces.Set(turn, UseFlag(b.pieces.At(turn)));
      freeCells := freeCells - 1;
      if f.nextVal.At(turn) > 0 {
        normalMoves := normalMoves.Set(turn, normalMoves.At(turn) - 1);
      }
      if f.nextVal.At(3 - turn) > 0 {
        normalMoves := normalMoves.Set(3 - turn, normalMoves.At(3 - turn) - 1);
      }
      assert World().cells == Place(old(World()), k, turn, Flag, 0).cells;
    }

    /** The branch of MakeMove for the kind of piece. */
    method PlacePiece(k: nat, ct: CellType)
      requires Sized() && Shaped(GraphOf(d), State()) && Legal(State(), FlatMove(b.turn, b.move, k, ct))
      modifies `normalMoves, `freeCells, b`score, b`pieces, b.flat
      ensures Sized() && freeCells == old(freeCells) - 1
      ensures World() == Placed(old(State()), FlatMove(b.turn, b.move, k, ct))
      ensures b.pieces == if ct == Flag then old(b.pieces).Set(b.turn, UseFlag(old(b.pieces).At(b.turn)))
                          else old(b.pieces)
    {
      if ct == Normal {
        PlaceNormal(k, b.turn, b.flat[k].nextVal.At(b.turn));
      } else {
        PlaceFlag(k, b.turn);
      }
    }

    /** The part of MakeMove after all tests have passed. */
    method Execute(m: EngineMove)
      requires Sized() && Shaped(GraphOf(d), State())
      requires OnBoard(d, Idx(m.row, m.col)) && Legal(State(), Flatten(d, m))
      requires Spreading(GraphOf(d), Placed(State(), Flatten(d, m)), Flat(d, Idx(m.row, m.col)), 0)
      requires CellsOk(Placed(State(), Flatten(d, m)).cells)
      modifies `normalMoves, `freeCells, b`score, b`pieces, b`turn, b`move, b`state, b.flat
      ensures Sized()
      ensures State() == FlagzRules.MakeMove(GraphOf(d), old(State()), Flatten(d, m)).game
    {
      ghost var g, s, fm := GraphOf(d), State(), Flatten(d, m);
      var x := Idx(m.row, m.col);
      PlacePiece(b.Slot(x), m.cellType);
      UpdateNeighborCells(x);
      EndTurn();
    }

    /** The end of MakeMove: the other player's turn, unless recomputeState decides otherwise. */
    method EndTurn()
      modifies b`turn, b`move, b`state
      ensures State() == RecomputeState(old(State()).(turn := 3 - old(b.turn), move := old(b.move) + 1))
    {
      b.turn := 3 - b.turn;
      b.move := b.move + 1;
      Recompute();
    }

    /** MakeMove accepts exactly the legal moves and keeps the invariant; a rejected move changes nothing. */
    method MakeMove(m: EngineMove) returns (ok: bool)
      requires Valid()
      modifies `normalMoves, `freeCells, b`score, b`pieces, b`turn, b`move, b`state, b.flat
      ensures Valid()
      ensures ok == Legal(old(State()), Flatten(d, m))
      ensures State() == if ok then FlagzRules.MakeMove(GraphOf(d), old(State()), Flatten(d, m)).game
                         else old(State())
    {
      var turn := b.turn;
      if m.player != turn || m.move != b.move {
        return false;
      }
      if !b.IsValidIdx(Idx(m.row, m.col)) {
        return false;
      }
      var f := b.flat[b.Slot(Idx(m.row, m.col))];
      if f.Occupied() {
        return false;
      }
      if b.pieces.At(turn)[Code(m.cellType)] == 0 {
        return false;
      }
      if m.cellType == Normal {
        if f.nextVal.At(turn) <= 0 {
          return false;
        }
      } else if m.cellType != Flag {
        return false;
      }
      PlacedSpreads(GraphOf(d), State(), Flatten(d, m));
      MakeMoveKeepsInv(GraphOf(d), State(), Flatten(d, m));
      Execute(m);
      ok := true;
    }

    predicate IsDone()
      reads this, b
    {
      b.state == Finished
    }

    method Winner() returns (player: int)
      requires Valid()
      ensures player == FlagzRules.Winner(State())
      ensures b.state != Finished ==> player == 0
      ensures b.state == Finished ==> (player == 1 <==> b.score.p1 > b.score.p2)
      ensures b.state == Finished ==> (player == 2 <==> b.score.p2 > b.score.p1)
    {
      if !IsDone() {
        return 0;
      }
      ScoresAreNonNegative(GraphOf(d), State());
      var sc := [b.score.p1, b.score.p2];
      player := Winners.ScoreBasedSingleWinner(sc);
      assert Winners.StrictMax(sc, 0) <==> sc[1] < sc[0];
      assert Winners.StrictMax(sc, 1) <==> sc[0] < sc[1];
    }

    /** The nested search loops of RandomMove: the nth free cell, or the nth cell open to `turn`. */
    method FindNth(pickFlag: bool, turn: int, nth: nat) returns (x: Idx)
      requires Sized()
      requires nth < |if pickFlag then FreeCells(b.flat[..]) else AvailCells(b.flat[..], turn)|
      ensures OnBoard(d, x)
      ensures Flat(d, x) in if pickFlag then FreeCells(b.flat[..]) else AvailCells(b.flat[..], turn)
      ensures nth == |Below(if pickFlag then FreeCells(b.flat[..]) else AvailCells(b.flat[..], turn), Flat(d, x))|
    {
      ghost var eligible := if pickFlag then FreeCells(b.flat[..]) else AvailCells(b.flat[..], turn);
      var n := 0;
      for r := 0 to |b.fields|
        invariant n == |Below(eligible, RowStart(d, r))| <= nth
      {
        RowStartStep(d, r);
        assert b.fields[r] == Slice(RowStart(d, r), RowStart(d, r + 1));
        for c := 0 to b.fields[r].end - b.fields[r].start
          invariant n == |Below(eligible, RowStart(d, r) + c)| <= nth
        {
          x := Idx(r, c);
          var k := b.Slot(x);
          BelowNext(eligible, k);
          if !b.flat[k].Occupied() && (pickFlag || b.flat[k].Available(turn)) {
            if n == nth {
              return x;
            }
            n := n + 1;
          }
        }
      }
      BelowAll(eligible, b.flat.Length);
      assert false;
      x := Idx(0, 0);
    }

    /** The first part of RandomMove: whether to play a flag. */
    method PickFlag(u: real) returns (pickFlag: bool)
      requires Valid()
      ensures pickFlag == PicksFlag(State(), u)
    {
      var nMoves := normalMoves.At(b.turn);
      var flagsLeft := b.pieces.At(b.turn)[Code(Flag)] > 0;
      pickFlag := false;
      assert CountedFor(World(), b.turn);
      if freeCells > 0 && flagsLeft {
        if nMoves == 0 {
          pickFlag := true;
        } else {
          pickFlag := u <= 1.0 / ((nMoves + 1) as real);
        }
      }
    }

    /** RandomMove: an error when the game is not running, else a legal move, which the random numbers determine;
        its final panic is not reached. */
    method RandomMove(u: real, intn: int -> int) returns (m: Option<EngineMove>)
      requires Valid() && 0.0 <= u < 1.0 && forall n :: n > 0 ==> 0 <= intn(n) < n
      ensures m.None? <==> State().state != Running
      ensures m.Some? ==> Legal(State(), Flatten(d, m.value)) && Drawn(State(), Flatten(d, m.value), u, intn)
    {
      if b.state != Running {
        return None;
      }
      var turn := b.turn;
      var pickFlag := PickFlag(u);
      assert CountedFor(World(), turn);
      var nth := intn(if pickFlag then freeCells else normalMoves.At(turn));
      var x := FindNth(pickFlag, turn, nth);
      m := Some(EngineMove(turn, b.move, x.r, x.c, if pickFlag then Flag else Normal));
    }
  }

  // ---- What random numbers make of a state ----

  /** The cells that RandomMove chooses from. */
  ghost function Eligible(s: Game, flag: bool): set<nat>
  {
    if flag then FreeCells(s.world.cells) else AvailCells(s.world.cells, s.turn)
  }

  /** A flag is played for the random number u if the player has one, a cell is free, and there is no normal move
      or u is at most 1/(n + 1), n being the number of normal moves. */
  ghost predicate PicksFlag(s: Game, u: real)
  {
    var n := |AvailCells(s.world.cells, s.turn)|;
    s.pieces.At(s.turn)[5] > 0 && s.freeCells > 0 && (n == 0 || u <= 1.0 / (n + 1) as real)
  }

  /** The move for the random number u and the source of numbers below a bound: on the cell with as many eligible
      cells before it as the number drawn. */
  ghost predicate Drawn(s: Game, m: FlatMove, u: real, intn: int -> int)
  {
    var flag := PicksFlag(s, u);
    && m.player == s.turn && m.move == s.move && m.cellType == (if flag then Flag else Normal)
    && m.at in Eligible(s, flag) && |Below(Eligible(s, flag), m.at)| == intn(|Eligible(s, flag)|)
  }

  lemma HalfAtMost(n: nat)
    requires n > 0
    ensures 0.0 <= 1.0 / (n + 1) as real <= 0.5
  {
    var x := n as real - 1.0;
    assert (n + 1) as real == x + 2.0;
  }

  /** Conversely every legal move is drawn for some random numbers. */
  lemma EveryLegalMoveIsDrawn(g: Graph, s: Game, m: FlatMove) returns (u: real, k: nat)
    requires Inv(g, s) && s.state == Running && Legal(s, m)
    ensures 0.0 <= u < 1.0 && k < |Eligible(s, m.cellType == Flag)|
    ensures forall intn: int -> int :: intn(|Eligible(s, m.cellType == Flag)|) == k ==> Drawn(s, m, u, intn)
  {
    var flag := m.cellType == Flag;
    var all, n := Eligible(s, flag), |AvailCells(s.world.cells, s.turn)|;
    u := if flag then 0.0 else 0.75;
    if n > 0 {
      HalfAtMost(n);
    }
    assert m.at in all;
    k := |Below(all, m.at)|;
    ProperSubsetSize(Below(all, m.at), all, m.at);
  }

  /** The number drawn determines the cell. */
  lemma DrawnIsUnique(s: Game, m: FlatMove, m': FlatMove, u: real, intn: int -> int)
    requires Drawn(s, m, u, intn) && Drawn(s, m', u, intn)
    ensures m == m'
  {
    var all := Eligible(s, m.cellType == Flag);
    if m.at < m'.at {
      ProperSubsetSize(Below(all, m.at), Below(all, m'.at), m.at);
    } else if m'.at < m.at {
      ProperSubsetSize(Below(all, m'.at), Below(all, m.at), m'.at);
    }
  }

  lemma {:induction false} OwnedSumNonNegative(cells: seq<Field>, p: int)
    requires CellsOk(cells) && IsPlayer(p)
    ensures OwnedSum(cells, p) >= 0
  {
    if cells != [] {
      var init := cells[..|cells| - 1];
      assert CellOk(cells[|cells| - 1]);
      forall z | 0 <= z < |init|
        ensures CellOk(init[z])
      {
        assert CellOk(cells[z]);
      }
      OwnedSumNonNegative(init, p);
    }
  }

  lemma ScoresAreNonNegative(g: Graph, s: Game)
    requires Inv(g, s)
    ensures s.world.score.p1 >= 0 && s.world.score.p2 >= 0
  {
    assert CountedFor(s.world, 1) && CountedFor(s.world, 2);
    OwnedSumNonNegative(s.world.cells, 1);
    OwnedSumNonNegative(s.world.cells, 2);
  }
}
