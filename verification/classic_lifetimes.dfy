/**
 How long pieces stay on a Classic board, counted in reveals: what a cell is after each of a number of reveals,
 whatever moves change the other cells in between.
 */
module ClassicLifetimes {
  import opened Cells
  import opened HexBoard
  import opened ClassicFlood
  import opened ClassicRegions
  import opened ClassicRules
  import opened Moves

  /** The board before and after each of some consecutive reveals; no move changes cell z in between. */
  ghost predicate Rounds(g: Graph, before: seq<seq<Field>>, after: seq<seq<Field>>, z: nat)
  {
    && |after| == |before| && z < |g|
    && (forall i {:trigger RoundOk(g, before, after, z, i)} :: 0 <= i < |before| ==> RoundOk(g, before, after, z, i))
  }

  ghost predicate RoundOk(g: Graph, before: seq<seq<Field>>, after: seq<seq<Field>>, z: nat, i: nat)
    requires i < |before| == |after| && z < |g|
  {
    && |before[i]| == |after[i]| == |g| && RevealStep(g, before[i], after[i])
    && (i > 0 ==> |after[i - 1]| == |g| && before[i][z] == after[i - 1][z])
  }

  /** After the first n reveals the cell holds a piece of this type; the next reveal frees it. */
  ghost predicate LastsFor(boards: seq<seq<Field>>, z: nat, ct: CellType, n: nat)
  {
    && (forall i :: 0 <= i < |boards| ==> z < |boards[i]|)
    && (forall i :: 0 <= i < n && i < |boards| ==> boards[i][z].typ == ct && boards[i][z].Occupied())
    && (n < |boards| ==> !boards[n][z].Occupied())
  }

  // ---- One reveal of one cell ----

  /** Special cells are not infected: a reveal shows them and lets them age. */
  lemma SpecialCellAges(g: Graph, before: seq<Field>, after: seq<Field>, z: nat)
    requires |before| == |g| && z < |g| && RevealStep(g, before, after) && before[z].typ != Normal
    ensures |after| == |g|
    ensures before[z].lifetime == 0 ==> !after[z].Occupied()
    ensures before[z].lifetime != 0 ==> after[z].typ == before[z].typ && after[z].owner == before[z].owner
    ensures before[z].lifetime > 0 ==> after[z].lifetime == before[z].lifetime - 1
    ensures before[z].lifetime < 0 ==> after[z].lifetime == before[z].lifetime
  {
    var shown: seq<Field>, sick: seq<Field> :|
      AllRevealed(before, shown) && PestStep(g, shown, sick) && AllAged(sick, after);
    assert shown[z] == before[z].(hidden := false) && !Exposed(g, shown, z);
    assert sick[z] == shown[z] && after[z] == Aged(sick[z]);
  }

  /** An owned normal cell keeps its owner through a reveal, or is a pest of the other player for three. */
  lemma NormalCellStays(g: Graph, before: seq<Field>, after: seq<Field>, z: nat)
    requires |before| == |g| && z < |g| && RevealStep(g, before, after)
    requires before[z].typ == Normal && IsPlayer(before[z].owner) && before[z].lifetime == -1
    ensures |after| == |g|
    ensures after[z].typ == Normal ==> after[z].owner == before[z].owner && after[z].lifetime == -1
    ensures after[z].typ != Normal ==> after[z].typ == Pest && after[z].owner == 3 - before[z].owner
    ensures after[z].typ != Normal ==> after[z].lifetime == 2
  {
    var shown: seq<Field>, sick: seq<Field> :|
      AllRevealed(before, shown) && PestStep(g, shown, sick) && AllAged(sick, after);
    assert shown[z] == before[z].(hidden := false);
    assert after[z] == Aged(sick[z]);
  }

  // ---- Special cells expire ----

  lemma LaterRounds(g: Graph, before: seq<seq<Field>>, after: seq<seq<Field>>, z: nat)
    requires Rounds(g, before, after, z) && |before| > 0
    ensures Rounds(g, before[1..], after[1..], z)
    ensures |before| > 1 ==> |before[1]| == |after[0]| == |g| && before[1][z] == after[0][z]
  {
    forall i | 0 <= i < |before| - 1
      ensures RoundOk(g, before[1..], after[1..], z, i)
    {
      assert RoundOk(g, before, after, z, i + 1);
    }
    if |before| > 1 {
      assert RoundOk(g, before, after, z, 1);
      assert RoundOk(g, before, after, z, 0);
    }
  }

  /** A special cell with a lifetime is there after as many reveals, and free after one more. */
  lemma {:induction false} Expires(g: Graph, before: seq<seq<Field>>, after: seq<seq<Field>>, z: nat)
    requires Rounds(g, before, after, z) && |before| > 0 && |before[0]| == |g|
    requires before[0][z].typ != Normal && before[0][z].lifetime >= 0
    ensures LastsFor(after, z, before[0][z].typ, before[0][z].lifetime)
    decreases |before|
  {
    assert RoundOk(g, before, after, z, 0);
    SpecialCellAges(g, before[0], after[0], z);
    LaterRounds(g, before, after, z);
    forall i | 0 <= i < |after|
      ensures z < |after[i]|
    {
      assert RoundOk(g, before, after, z, i);
    }
    if |before| > 1 && before[0][z].lifetime > 0 {
      Expires(g, before[1..], after[1..], z);
      assert forall i :: 0 < i < |after| ==> after[i] == after[1..][i - 1];
    }
  }

  /** A flag stays, and stays its owner's. */
  lemma {:induction false} FlagStays(g: Graph, before: seq<seq<Field>>, after: seq<seq<Field>>, z: nat, i: nat)
    requires Rounds(g, before, after, z) && i < |before| && |before[0]| == |g|
    requires before[0][z].typ == Flag && before[0][z].lifetime == -1
    ensures |after[i]| == |g| && after[i][z].typ == Flag && after[i][z].owner == before[0][z].owner
    ensures after[i][z].lifetime == -1
  {
    assert RoundOk(g, before, after, z, i);
    if i > 0 {
      FlagStays(g, before, after, z, i - 1);
    }
    SpecialCellAges(g, before[i], after[i], z);
  }

  /** An owned normal cell stays its owner's until it is infected in some round k; from then on it is a pest of the
      other player for three reveals, and then free. */
  lemma {:induction false} OwnedCellStays(g: Graph, before: seq<seq<Field>>, after: seq<seq<Field>>, z: nat)
      returns (k: nat)
    requires Rounds(g, before, after, z) && |before| > 0 && |before[0]| == |g|
    requires before[0][z].typ == Normal && IsPlayer(before[0][z].owner) && before[0][z].lifetime == -1
    ensures k <= |after| && forall i :: 0 <= i < |after| ==> |after[i]| == |g|
    ensures forall i :: 0 <= i < k ==> after[i][z].typ == Normal && after[i][z].owner == before[0][z].owner
    ensures k < |after| ==> after[k][z].owner == 3 - before[0][z].owner && LastsFor(after[k..], z, Pest, 3)
    decreases |before|
  {
    assert RoundOk(g, before, after, z, 0);
    NormalCellStays(g, before[0], after[0], z);
    LaterRounds(g, before, after, z);
    forall i | 0 <= i < |after|
      ensures |after[i]| == |g|
    {
      assert RoundOk(g, before, after, z, i);
    }
    if after[0][z].typ == Pest {
      k := 0;
      assert after[0..] == after;
      InfectedExpires(g, before, after, z);
    } else if |before| == 1 {
      k := 1;
    } else {
      k := OwnedCellStays(g, before[1..], after[1..], z);
      assert forall i :: 0 < i < |after| ==> after[i] == after[1..][i - 1];
      assert after[1..][k..] == after[k + 1..];
      k := k + 1;
    }
  }

  /** The reveal that infects a cell counts as the first of the three. */
  lemma InfectedExpires(g: Graph, before: seq<seq<Field>>, after: seq<seq<Field>>, z: nat)
    requires Rounds(g, before, after, z) && |before| > 0 && |after[0]| == |g|
    requires after[0][z].typ == Pest && after[0][z].lifetime == 2
    ensures LastsFor(after, z, Pest, 3)
  {
    LaterRounds(g, before, after, z);
    forall i | 0 <= i < |after|
      ensures z < |after[i]|
    {
      assert RoundOk(g, before, after, z, i);
    }
    if |before| > 1 {
      Expires(g, before[1..], after[1..], z);
      assert forall i :: 0 < i < |after| ==> after[i] == after[1..][i - 1];
    }
  }

  // ---- What a move puts on the board, and how long it stays ----

  /** Filling a region leaves the placed piece alone. */
  lemma PlacedPieceKept(g: Graph, s: Game, m: FlatMove, placed: seq<Field>, num: int)
    requires |s.cells| == |g| && IsPlayer(s.turn) && Legal(s, m) && Placement(g, s, m, placed, num)
    requires !s.cells[m.at].Occupied() && m.cellType != Fire
    ensures |placed| == |g| && placed[m.at] == PlacedPiece(s.cells[m.at], s.turn, m.cellType)
  {
    var at: nat := m.at;
    var cells := s.cells[at := PlacedPiece(s.cells[at], s.turn, m.cellType)];
    if |Candidates(g, cells, g[at], |g[at]|)| > 1 {
      var k: nat :| k < |g[at]| && Smallest(g, cells, g[at], k)
        && Filled(cells, placed, Region(g, cells, g[at][k]),
                  Occupator(g, cells, Region(g, cells, g[at][k]), s.turn, m.cellType));
      RegionIsFree(g, cells, g[at][k]);
    }
  }

  /** The cell of the move: a conflict leaves a dead cell, a death piece on a piece or a free cell and a fire stay for
      one reveal besides that of their own move, a pest for three, a flag and a normal piece for good. */
  lemma PlacedCell(g: Graph, s: Game, m: FlatMove, placed: seq<Field>, num: int)
    requires Inv(g, s) && Legal(s, m) && Placement(g, s, m, placed, num)
    ensures |placed| == |g|
    ensures var f, p := s.cells[m.at], placed[m.at];
            if f.Occupied() && f.hidden && f.owner == 3 - s.turn then p.typ == Dead && p.owner == 0 && p.lifetime == 1
            else
              && p.owner == s.turn && p.typ == (if f.Occupied() then Death else m.cellType)
              && p.lifetime == match p.typ
                               case Fire => 1
                               case Death => 1
                               case Pest => 3
                               case _ => -1
  {
    var f := s.cells[m.at];
    if !f.Occupied() && m.cellType != Fire {
      PlacedPieceKept(g, s, m, placed, num);
    }
  }

  /** A fire burns exactly the cells around it. */
  lemma FireBurns(g: Graph, s: Game, m: FlatMove, placed: seq<Field>, num: int, z: nat)
    requires Inv(g, s) && Legal(s, m) && Placement(g, s, m, placed, num) && z < |g| && z != m.at
    requires m.cellType == Fire && !s.cells[m.at].Occupied()
    ensures |placed| == |g|
    ensures z in g[m.at] ==> placed[z].typ == Dead && placed[z].owner == 0 && placed[z].lifetime == 1
    ensures z !in g[m.at] ==> placed[z] == s.cells[z]
  {
  }

  /** How long the piece of a move stays on its cell. */
  lemma PieceExpires(g: Graph, s: Game, m: FlatMove, num: int, before: seq<seq<Field>>, after: seq<seq<Field>>)
    requires Inv(g, s) && Legal(s, m) && |before| > 0 && Placement(g, s, m, before[0], num)
    requires Rounds(g, before, after, m.at)
    ensures var f := s.cells[m.at];
            if f.Occupied() && f.hidden && f.owner == 3 - s.turn then LastsFor(after, m.at, Dead, 1)
            else if f.Occupied() then LastsFor(after, m.at, Death, 1)
            else
              match m.cellType
              case Fire => LastsFor(after, m.at, Fire, 1)
              case Death => LastsFor(after, m.at, Death, 1)
              case Pest => LastsFor(after, m.at, Pest, 3)
              case _ => true
    ensures !s.cells[m.at].Occupied() && m.cellType == Flag ==>
              forall i :: 0 <= i < |after| ==>
                |after[i]| == |g| && after[i][m.at].typ == Flag && after[i][m.at].owner == s.turn
  {
    PlacedCell(g, s, m, before[0], num);
    if before[0][m.at].lifetime >= 0 {
      Expires(g, before, after, m.at);
    }
    if before[0][m.at].typ == Flag {
      forall i | 0 <= i < |after|
        ensures |after[i]| == |g| && after[i][m.at].typ == Flag && after[i][m.at].owner == s.turn
      {
        FlagStays(g, before, after, m.at, i);
      }
    }
  }

  /** The cells around a fire are dead after the reveal of its move and free after the next one. */
  lemma BurntCellExpires(g: Graph, s: Game, m: FlatMove, num: int,
                         before: seq<seq<Field>>, after: seq<seq<Field>>, z: nat)
    requires Inv(g, s) && Legal(s, m) && |before| > 0 && Placement(g, s, m, before[0], num)
    requires m.cellType == Fire && !s.cells[m.at].Occupied() && z < |g| && z in g[m.at]
    requires Rounds(g, before, after, z)
    ensures LastsFor(after, z, Dead, 1)
  {
    FireBurns(g, s, m, before[0], num, z);
    Expires(g, before, after, z);
  }

  /** On any board of a game an owned normal cell stays its owner's until a pest takes it, which then stays for
      three reveals. */
  lemma NormalPieceStays(g: Graph, before: seq<seq<Field>>, after: seq<seq<Field>>, z: nat) returns (k: nat)
    requires Rounds(g, before, after, z) && |before| > 0 && |before[0]| == |g| && CellsOk(before[0])
    requires before[0][z].typ == Normal && before[0][z].Occupied()
    ensures k <= |after| && forall i :: 0 <= i < |after| ==> |after[i]| == |g|
    ensures forall i :: 0 <= i < k ==> after[i][z].typ == Normal && after[i][z].owner == before[0][z].owner
    ensures k < |after| ==> after[k][z].owner == 3 - before[0][z].owner && LastsFor(after[k..], z, Pest, 3)
  {
    assert CellOk(before[0][z]);
    k := OwnedCellStays(g, before, after, z);
  }

  // ---- Pests spread ----

  /** In every reveal after its own, as long as it is on the board, a pest takes the other player's normal cells
      around it. */
  lemma PestSpreads(g: Graph, before: seq<Field>, after: seq<Field>, y: nat, z: nat)
    requires |before| == |g| && y < |g| && z < |g| && z in g[y] && RevealStep(g, before, after)
    requires before[y].typ == Pest && before[y].lifetime < 3 && IsPlayer(before[y].owner)
    requires before[z].typ == Normal && before[z].owner == 3 - before[y].owner
    ensures |after| == |g| && after[z].typ == Pest && after[z].owner == before[y].owner
  {
    var shown: seq<Field>, sick: seq<Field> :|
      AllRevealed(before, shown) && PestStep(g, shown, sick) && AllAged(sick, after);
    assert Infects(shown[y], shown[z]);
  }

  /** Nothing else takes an owned cell in a reveal: not a pest in the reveal of its own move, not an own pest, and
      no pest farther away. */
  lemma OnlyPestsSpread(g: Graph, before: seq<Field>, after: seq<Field>, z: nat)
    requires |before| == |g| && z < |g| && RevealStep(g, before, after)
    requires before[z].typ == Normal && IsPlayer(before[z].owner) && before[z].lifetime == -1
    requires forall y: nat :: y < |g| && z in g[y] && before[y].typ == Pest ==>
               before[y].lifetime >= 3 || before[y].owner == before[z].owner
    ensures |after| == |g| && after[z].typ == Normal && after[z].owner == before[z].owner
  {
    var shown: seq<Field>, sick: seq<Field> :|
      AllRevealed(before, shown) && PestStep(g, shown, sick) && AllAged(sick, after);
    assert !Exposed(g, shown, z);
  }

  /** The pest of a move takes nothing in the reveal of its own move, and all of the other player's normal cells
      around it in each of the next three. */
  lemma PestTakes(g: Graph, s: Game, m: FlatMove, num: int,
                  before: seq<seq<Field>>, after: seq<seq<Field>>, i: nat, z: nat)
    requires Inv(g, s) && Legal(s, m) && |before| > 0 && Placement(g, s, m, before[0], num)
    requires m.cellType == Pest && !s.cells[m.at].Occupied() && Rounds(g, before, after, m.at)
    requires 1 <= i <= 3 && i < |before| && z < |g| && z in g[m.at] && |before[i]| == |g|
    requires before[i][z].typ == Normal && before[i][z].owner == 3 - s.turn
    ensures |after[i]| == |g| && after[i][z].typ == Pest && after[i][z].owner == s.turn
  {
    PestAge(g, s, m, num, before, after, i);
    assert RoundOk(g, before, after, m.at, i);
    PestSpreads(g, before[i], after[i], m.at, z);
  }

  lemma {:induction false} PestAge(g: Graph, s: Game, m: FlatMove, num: int,
                                   before: seq<seq<Field>>, after: seq<seq<Field>>, i: nat)
    requires Inv(g, s) && Legal(s, m) && |before| > 0 && Placement(g, s, m, before[0], num)
    requires m.cellType == Pest && !s.cells[m.at].Occupied() && Rounds(g, before, after, m.at)
    requires i <= 3 && i < |before|
    ensures |before[i]| == |g|
    ensures before[i][m.at].typ == Pest && before[i][m.at].owner == s.turn && before[i][m.at].lifetime == 3 - i
  {
    assert RoundOk(g, before, after, m.at, i);
    if i == 0 {
      PlacedCell(g, s, m, before[0], num);
    } else {
      PestAge(g, s, m, num, before, after, i - 1);
      assert RoundOk(g, before, after, m.at, i - 1);
      SpecialCellAges(g, before[i - 1], after[i - 1], m.at);
    }
  }
}
