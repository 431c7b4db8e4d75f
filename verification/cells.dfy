/**
 The value types of hexz/api.go and hexz/engine.go that the game engines share.
 */
module Cells {

  datatype CellType = Normal | Dead | Grass | Rock | Fire | Flag | Pest | Death

  datatype GameState = Initial | Running | Finished

  /** A two-element array indexed by player number 1 or 2. */
  datatype Two<+T> = Two(p1: T, p2: T) {
    function At(p: int): T {
      if p == 1 then p1 else p2
    }

    function Set(p: int, v: T): (r: Two<T>)
      ensures r.At(p) == v
      ensures p == 1 || p == 2 ==> r.At(3 - p) == At(3 - p)
    {
      if p == 1 then Two(v, p2) else Two(p1, v)
    }
  }

  /** One cell.  `value`, `blocked` and `nextVal` are used by Flagz only. */
  datatype Field = Field(
    typ: CellType, owner: int, hidden: bool, value: int,
    blocked: Two<bool>, lifetime: int, nextVal: Two<int>)
  {
    predicate Occupied() {
      typ != Normal || owner > 0
    }

    predicate Available(p: int) {
      nextVal.At(p) > 0
    }
  }

  /** The zero value of a cell. */
  const EMPTY := Field(Normal, 0, false, 0, Two(false, false), 0, Two(0, 0))

  function Code(ct: CellType): (k: nat)
    ensures k < 8
  {
    match ct
    case Normal => 0
    case Dead => 1
    case Grass => 2
    case Rock => 3
    case Fire => 4
    case Flag => 5
    case Pest => 6
    case Death => 7
  }

  /** ResourceInfo.NumPieces: pieces left per cell type, -1 for no limit. */
  type Pieces = s: seq<int> | |s| == 8 witness [0, 0, 0, 0, 0, 0, 0, 0]

  /** The cells with a flag of player p. */
  ghost function FlagCells(cells: seq<Field>, p: int): set<nat>
  {
    set z: nat | z < |cells| && cells[z].typ == Flag && cells[z].owner == p
  }

  /** What players submit; (row, col) may be off the board. */
  datatype EngineMove = EngineMove(player: int, move: int, row: int, col: int, cellType: CellType)
}

/**
 Winner determination shared by the engines.
 */
module Winners {

  /** The entry at i is strictly greater than every other entry. */
  predicate StrictMax(score: seq<int>, i: int)
  {
    && 0 <= i < |score|
    && forall j :: 0 <= j < |score| && j != i ==> score[j] < score[i]
  }

  /** 1 + the index of the strict maximum, 0 if the maximum is shared or no score is above -1. */
  method ScoreBasedSingleWinner(score: seq<int>) returns (player: nat)
    ensures player <= |score|
    ensures player > 0 ==> StrictMax(score, player - 1) && score[player - 1] >= 0
    ensures player == 0 ==> forall i :: StrictMax(score, i) ==> score[i] < 0
  {
    var maxIdx, maxScore, uniq := -1, -1, false;
    for i := 0 to |score|
      invariant -1 <= maxIdx < i
      invariant maxScore >= -1
      invariant forall j :: 0 <= j < i ==> score[j] <= maxScore
      invariant uniq ==> 0 <= maxIdx && score[maxIdx] == maxScore >= 0
      invariant uniq ==> forall j :: 0 <= j < i && j != maxIdx ==> score[j] < maxScore
      invariant !uniq && maxScore >= 0 ==>
                  exists j, k :: 0 <= j < k < i && score[j] == maxScore && score[k] == maxScore
    {
      if score[i] > maxScore {
        maxScore, maxIdx, uniq := score[i], i, true;
      } else if score[i] == maxScore {
        uniq := false;
      }
    }
    player := if uniq then maxIdx + 1 else 0;
  }
}

/**
 Players and moves on the flat board, as the rules of both games see them.
 */
module Moves {
  import opened Cells
  import opened HexBoard

  predicate IsPlayer(p: int)
  {
    p == 1 || p == 2
  }

  /** A move on the flat board; `at` is the flat position, or -1 when off the board. */
  datatype FlatMove = FlatMove(player: int, move: int, at: int, cellType: CellType)

  function Locate(d: Dims, r: int, c: int): int
  {
    if OnBoard(d, Idx(r, c)) then Flat(d, Idx(r, c)) else -1
  }

  function Flatten(d: Dims, m: EngineMove): FlatMove
  {
    FlatMove(m.player, m.move, Locate(d, m.row, m.col), m.cellType)
  }
}
