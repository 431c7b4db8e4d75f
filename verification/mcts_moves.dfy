/**
 MCTS.nextMoves: which children a node gets.  All normal moves are proposed; flag
 moves are sampled by a reservoir of fixed size.
 */
module MctsMoves {
  import opened Cells
  import opened HexBoard
  import opened Boards
  import opened FlagzRules
  import opened FlagzCaches
  import opened FlagzGame
  import opened FlagzEngine
  import opened MctsTree
  import opened MctsSteps
  import opened Moves
  import opened Sets

  /** x is an unplayed move of the given kind on a cell of `cells` that lies before position pos. */
  predicate MoveBefore(d: Dims, x: Node, turn: int, ct: CellType, pos: int)
  {
    x == Unplayed(x.r, x.c, turn, ct) && OnBoard(d, Idx(x.r, x.c)) && Flat(d, Idx(x.r, x.c)) < pos
  }

  /** Flat position of a move on the board. */
  function Pos(d: Dims, x: Node): nat
  {
    if OnBoard(d, Idx(x.r, x.c)) then Flat(d, Idx(x.r, x.c)) else 0
  }

  /** The moves in ms are of one kind, on distinct eligible cells before position pos. */
  ghost predicate MovesOn(d: Dims, ms: seq<Node>, turn: int, ct: CellType, eligible: set<nat>, pos: int)
  {
    && (forall k :: 0 <= k < |ms| ==> MoveBefore(d, ms[k], turn, ct, pos) && Pos(d, ms[k]) in eligible)
    && forall j, k :: 0 <= j < k < |ms| ==> Pos(d, ms[j]) != Pos(d, ms[k])
  }

  lemma MovesOnLater(d: Dims, ms: seq<Node>, turn: int, ct: CellType, eligible: set<nat>, pos: int, pos': int)
    requires MovesOn(d, ms, turn, ct, eligible, pos) && pos <= pos'
    ensures MovesOn(d, ms, turn, ct, eligible, pos')
  {
  }

  lemma MovesOnAppend(d: Dims, ms: seq<Node>, turn: int, ct: CellType, eligible: set<nat>, x: Idx)
    requires OnBoard(d, x) && Flat(d, x) in eligible
    requires MovesOn(d, ms, turn, ct, eligible, Flat(d, x))
    ensures MovesOn(d, ms + [Unplayed(x.r, x.c, turn, ct)], turn, ct, eligible, Flat(d, x) + 1)
  {
    var ms' := ms + [Unplayed(x.r, x.c, turn, ct)];
    forall k | 0 <= k < |ms'|
      ensures MoveBefore(d, ms'[k], turn, ct, Flat(d, x) + 1) && Pos(d, ms'[k]) in eligible
    {
      if k < |ms| {
        assert MoveBefore(d, ms[k], turn, ct, Flat(d, x));
      }
    }
    forall j, k | 0 <= j < k < |ms'|
      ensures Pos(d, ms'[j]) != Pos(d, ms'[k])
    {
      assert MoveBefore(d, ms[j], turn, ct, Flat(d, x));
    }
  }

  lemma MovesOnReplace(d: Dims, ms: seq<Node>, turn: int, ct: CellType, eligible: set<nat>, x: Idx, i: nat)
    requires OnBoard(d, x) && Flat(d, x) in eligible && i < |ms|
    requires MovesOn(d, ms, turn, ct, eligible, Flat(d, x))
    ensures MovesOn(d, ms[i := Unplayed(x.r, x.c, turn, ct)], turn, ct, eligible, Flat(d, x) + 1)
  {
    var ms' := ms[i := Unplayed(x.r, x.c, turn, ct)];
    forall k | 0 <= k < |ms'|
      ensures MoveBefore(d, ms'[k], turn, ct, Flat(d, x) + 1) && Pos(d, ms'[k]) in eligible
    {
      assert k != i ==> MoveBefore(d, ms[k], turn, ct, Flat(d, x));
    }
    forall j, k | 0 <= j < k < |ms'|
      ensures Pos(d, ms'[j]) != Pos(d, ms'[k])
    {
      assert MoveBefore(d, ms[j], turn, ct, Flat(d, x));
      assert MoveBefore(d, ms[k], turn, ct, Flat(d, x));
    }
  }

  function Min(a: int, b: int): int
  {
    if a <= b then a else b
  }

  lemma RatioAtLeastOne(a: int, b: int)
    requires 1 <= b <= a
    ensures a as real / b as real >= 1.0
  {
    var q := a as real / b as real;
    assert q * b as real == a as real;
    if q < 1.0 {
      assert (1.0 - q) * b as real > 0.0;
    }
  }

  /** One step of the reservoir: the first maxFlags candidates are always kept, later ones by chance
      and then in place of an earlier one. */
  method Sample(d: Dims, flagMoves: array<Node>, nFlags: int, x: Idx, turn: int, ghost free: set<nat>)
      returns (n: int)
    requires flagMoves.Length >= 1 && 0 <= nFlags && OnBoard(d, x) && Flat(d, x) in free
    requires MovesOn(d, flagMoves[..Min(nFlags, flagMoves.Length)], turn, Flag, free, Flat(d, x))
    modifies flagMoves
    ensures n == nFlags || n == nFlags + 1
    ensures nFlags < flagMoves.Length ==> n == nFlags + 1
    ensures MovesOn(d, flagMoves[..Min(n, flagMoves.Length)], turn, Flag, free, Flat(d, x) + 1)
  {
    var maxFlags := flagMoves.Length;
    ghost var kept := flagMoves[..Min(nFlags, maxFlags)];
    var u := Float64();
    if nFlags < maxFlags {
      RatioAtLeastOne(maxFlags, nFlags + 1);
    }
    if u < maxFlags as real / (nFlags + 1) as real {
      var k := nFlags;
      if k >= maxFlags {
        k := Intn(maxFlags);
      }
      flagMoves[k] := Unplayed(x.r, x.c, turn, Flag);
      n := nFlags + 1;
      if nFlags < maxFlags {
        MovesOnAppend(d, kept, turn, Flag, free, x);
        assert flagMoves[..n] == kept + [Unplayed(x.r, x.c, turn, Flag)];
      } else {
        MovesOnReplace(d, kept, turn, Flag, free, x, k);
        assert flagMoves[..maxFlags] == kept[k := Unplayed(x.r, x.c, turn, Flag)];
      }
    } else {
      n := nFlags;
      MovesOnLater(d, kept, turn, Flag, free, Flat(d, x), Flat(d, x) + 1);
    }
  }

  /** What the scan of nextMoves has collected when it reaches position pos: all normal moves so far, and
      as many distinct flag moves as fit. */
  ghost predicate Scanned(d: Dims, turn: int, avail: set<nat>, free: set<nat>, pos: int,
                          normals: seq<Node>, flags: seq<Node>, hasFlag: bool, maxFlags: int)
  {
    && MovesOn(d, normals, turn, Normal, avail, pos) && |normals| == |Below(avail, pos)|
    && MovesOn(d, flags, turn, Flag, free, pos)
    && |flags| == if hasFlag then Min(maxFlags, |Below(free, pos)|) else 0
  }

  /** The scan of nextMoves: every available cell as a normal move, and min(maxFlags, free cells)
      distinct free cells as flag moves if the player has a flag. */
  method CollectMoves(ge: Engine, maxFlags: nat) returns (normals: seq<Node>, flags: seq<Node>)
    requires ge.Sized() && maxFlags >= 1
    ensures MovesOn(ge.d, normals, ge.b.turn, Normal, AvailCells(ge.b.flat[..], ge.b.turn), Size(ge.d))
    ensures |normals| == |AvailCells(ge.b.flat[..], ge.b.turn)|
    ensures MovesOn(ge.d, flags, ge.b.turn, Flag, FreeCells(ge.b.flat[..]), Size(ge.d))
    ensures |flags| == if ge.b.pieces.At(ge.b.turn)[Code(Flag)] > 0 then Min(maxFlags, |FreeCells(ge.b.flat[..])|)
                       else 0
  {
    var d, b, turn := ge.d, ge.b, ge.b.turn;
    ghost var free, avail := FreeCells(b.flat[..]), AvailCells(b.flat[..], turn);
    var hasFlag := b.pieces.At(turn)[Code(Flag)] > 0;
    var flagMoves := new Node[maxFlags](_ => Unplayed(0, 0, turn, Flag));
    var nFlags := 0;
    normals := [];
    for r := 0 to |b.fields|
      invariant nFlags >= 0
      invariant Scanned(d, turn, avail, free, RowStart(d, r), normals, flagMoves[..Min(nFlags, maxFlags)],
                        hasFlag, maxFlags)
    {
      normals, nFlags := VisitRow(ge, r, hasFlag, normals, flagMoves, nFlags);
    }
    BelowAll(free, b.flat.Length);
    BelowAll(avail, b.flat.Length);
    flags := flagMoves[..Min(nFlags, maxFlags)];
  }

  /** The inner loop of nextMoves. */
  method VisitRow(ge: Engine, r: nat, hasFlag: bool, normals: seq<Node>, flagMoves: array<Node>, nFlags: int)
      returns (normals': seq<Node>, nFlags': int)
    requires ge.Sized() && r < ge.d.rows && flagMoves.Length >= 1 && nFlags >= 0
    requires Scanned(ge.d, ge.b.turn, AvailCells(ge.b.flat[..], ge.b.turn), FreeCells(ge.b.flat[..]), RowStart(ge.d, r),
                     normals, flagMoves[..Min(nFlags, flagMoves.Length)], hasFlag, flagMoves.Length)
    modifies flagMoves
    ensures nFlags' >= 0
    ensures Scanned(ge.d, ge.b.turn, AvailCells(ge.b.flat[..], ge.b.turn), FreeCells(ge.b.flat[..]),
                    RowStart(ge.d, r + 1), normals', flagMoves[..Min(nFlags', flagMoves.Length)],
                    hasFlag, flagMoves.Length)
  {
    var d, b := ge.d, ge.b;
    ghost var free, avail := FreeCells(b.flat[..]), AvailCells(b.flat[..], b.turn);
    RowStartStep(d, r);
    assert b.fields[r] == Slice(RowStart(d, r), RowStart(d, r + 1));
    normals', nFlags' := normals, nFlags;
    for c := 0 to b.fields[r].end - b.fields[r].start
      invariant nFlags' >= 0
      invariant Scanned(d, b.turn, avail, free, RowStart(d, r) + c, normals',
                        flagMoves[..Min(nFlags', flagMoves.Length)], hasFlag, flagMoves.Length)
    {
      normals', nFlags' := Visit(ge, Idx(r, c), hasFlag, normals', flagMoves, nFlags');
    }
  }

  /** The loop body of nextMoves for one cell. */
  method Visit(ge: Engine, x: Idx, hasFlag: bool, normals: seq<Node>, flagMoves: array<Node>, nFlags: int)
      returns (normals': seq<Node>, nFlags': int)
    requires ge.Sized() && OnBoard(ge.d, x) && flagMoves.Length >= 1 && nFlags >= 0
    requires Scanned(ge.d, ge.b.turn, AvailCells(ge.b.flat[..], ge.b.turn), FreeCells(ge.b.flat[..]), Flat(ge.d, x),
                     normals, flagMoves[..Min(nFlags, flagMoves.Length)], hasFlag, flagMoves.Length)
    modifies flagMoves
    ensures nFlags' >= 0
    ensures Scanned(ge.d, ge.b.turn, AvailCells(ge.b.flat[..], ge.b.turn), FreeCells(ge.b.flat[..]), Flat(ge.d, x) + 1,
                    normals', flagMoves[..Min(nFlags', flagMoves.Length)], hasFlag, flagMoves.Length)
  {
    var d, turn, k := ge.d, ge.b.turn, ge.b.Slot(x);
    ghost var free, avail := FreeCells(ge.b.flat[..]), AvailCells(ge.b.flat[..], turn);
    BelowNext(free, k);
    BelowNext(avail, k);
    normals', nFlags' := normals, nFlags;
    if ge.b.flat[k].Occupied() {
      MovesOnLater(d, normals, turn, Normal, avail, k, k + 1);
      MovesOnLater(d, flagMoves[..Min(nFlags, flagMoves.Length)], turn, Flag, free, k, k + 1);
      return;
    }
    if ge.b.flat[k].Available(turn) {
      normals' := normals + [Unplayed(x.r, x.c, turn, Normal)];
      MovesOnAppend(d, normals, turn, Normal, avail, x);
    } else {
      MovesOnLater(d, normals, turn, Normal, avail, k, k + 1);
    }
    if hasFlag {
      nFlags' := Sample(d, flagMoves, nFlags, x, turn, free);
    }
  }

  /** The positions of these moves. */
  function Positions(d: Dims, ms: seq<Node>): seq<nat>
  {
    seq(|ms|, k requires 0 <= k < |ms| => Pos(d, ms[k]))
  }

  /** As many distinct moves as eligible cells: every eligible cell has its move. */
  lemma MovesCoverAll(d: Dims, ms: seq<Node>, turn: int, ct: CellType, eligible: set<nat>, pos: int, z: nat)
    requires MovesOn(d, ms, turn, ct, eligible, pos) && |ms| == |eligible| && z in eligible
    ensures exists k :: 0 <= k < |ms| && Pos(d, ms[k]) == z
  {
    var ps := Positions(d, ms);
    DistinctSize(ps);
    if z !in Elements(ps) {
      SubsetSize(Elements(ps), eligible - {z});
    } else {
      var k :| 0 <= k < |ms| && ps[k] == z;
      assert Pos(d, ms[k]) == z;
    }
  }
}
