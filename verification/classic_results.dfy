/**
 Results about Classic games: effects that do not interfere, when the final score is complete, and why it does
 no harm that a flag being placed is counted twice.
 */
module ClassicResults {
  import opened Cells
  import opened HexBoard
  import opened ClassicFlood
  import opened ClassicRegions
  import opened ClassicRules
  import opened Moves
  import opened Sets

  /** A step of the pest never chains: a cell infected in it does not infect, however the pass is ordered. */
  lemma FreshPestIsHarmless(g: Graph, before: seq<Field>, after: seq<Field>, y: nat, z: nat)
    requires |before| == |g| && y < |g| && z < |g| && CellsOk(before) && PestStep(g, before, after)
    requires Exposed(g, before, y)
    ensures !Infects(after[y], after[z]) && !Infects(after[y], before[z])
    ensures after[y].owner == 3 - before[y].owner
  {
  }

  predicate NothingHidden(cells: seq<Field>, p: int)
  {
    forall z :: 0 <= z < |cells| && cells[z].owner == p ==> !cells[z].hidden
  }

  /** The score counts all owned cells exactly when none of them is still hidden: hidden cells are revealed
      after counting. */
  lemma ScoreIsCompleteIff(before: seq<Field>, s: GameState, after: seq<Field>, score: Two<int>, s': GameState, p: int)
    requires Scored(before, s, after, score, s') && Full(before) && IsPlayer(p)
    ensures score.At(p) == |OwnedBy(after, p)| <==> NothingHidden(before, p)
  {
    var v, o := Visible(before, p), OwnedBy(before, p);
    assert OwnedBy(after, p) == o;
    assert v <= o;
    if !NothingHidden(before, p) {
      var z: nat :| z < |before| && before[z].owner == p && before[z].hidden;
      assert z in o && z !in v;
      ProperSubsetSize(v, o, z);
    } else {
      assert v == o;
    }
  }

  lemma RevealHidesNothing(g: Graph, before: seq<Field>, after: seq<Field>)
    requires |before| == |g| && RevealStep(g, before, after)
    ensures forall z :: 0 <= z < |after| ==> !after[z].hidden
  {
    var shown: seq<Field>, sick: seq<Field> :|
      AllRevealed(before, shown) && PestStep(g, shown, sick) && AllAged(sick, after);
    forall z: nat | z < |after|
      ensures !after[z].hidden
    {
      assert !shown[z].hidden;
    }
  }

  /** Nothing occupies a free cell while the board is revealed. */
  lemma RevealKeepsFree(g: Graph, before: seq<Field>, after: seq<Field>, z: nat)
    requires |before| == |g| && z < |g| && RevealStep(g, before, after) && !before[z].Occupied()
    ensures z < |after| && !after[z].Occupied()
  {
    var shown: seq<Field>, sick: seq<Field> :|
      AllRevealed(before, shown) && PestStep(g, shown, sick) && AllAged(sick, after);
    assert !Exposed(g, shown, z) && !shown[z].Occupied();
  }

  lemma AnotherMember<T>(s: set<T>, x: T) returns (y: T)
    requires |s| > 1
    ensures y in s && y != x
  {
    if s <= {x} {
      SubsetSize(s, {x});
    }
    y :| y in s && y != x;
  }

  /** Regions that share a cell are the same. */
  lemma RegionsAreDisjoint(g: Graph, cells: seq<Field>, x: nat, y: nat, z: nat)
    requires Regular(g) && Symmetric(g) && |cells| == |g|
    requires z in Region(g, cells, x) && z in Region(g, cells, y)
    ensures Region(g, cells, x) == Region(g, cells, y)
  {
    RegionOfMember(g, cells, x, z);
    RegionOfMember(g, cells, y, z);
  }

  // ---- The region of a cell is split by a piece on it ----

  lemma {:induction false} WalkIsSplit(g: Graph, cells: seq<Field>, x: nat, f: Field, walk: seq<nat>)
    requires Regular(g) && |cells| == |g| && x < |g| && f.Occupied() && FreeWalk(g, cells, walk) && walk[0] == x
    ensures walk[|walk| - 1] == x
            || exists k :: 0 <= k < |g[x]| && walk[|walk| - 1] in Region(g, cells[x := f], g[x][k])
    decreases |walk|
  {
    var n := |walk| - 1;
    if n > 0 && walk[n] != x {
      var y, z, after := walk[n - 1], walk[n], cells[x := f];
      WalkIsSplit(g, cells, x, f, walk[..n]);
      assert z in g[y] && !after[z].Occupied();
      if y == x {
        RegionSelf(g, after, z);
      } else {
        var k :| 0 <= k < |g[x]| && y in Region(g, after, g[x][k]);
        RegionStep(g, after, g[x][k], y, z);
      }
    }
  }

  lemma PartIsInside(g: Graph, cells: seq<Field>, x: nat, f: Field, k: nat)
    requires Regular(g) && |cells| == |g| && x < |g| && !cells[x].Occupied() && f.Occupied() && k < |g[x]|
    ensures Region(g, cells[x := f], g[x][k]) <= Region(g, cells, x) - {x}
  {
    var after, y := cells[x := f], g[x][k];
    forall z | z in Region(g, after, y)
      ensures z in Region(g, cells, x) && z != x
    {
      RegionFree(g, after, y, z);
      var walk :| FreeWalk(g, after, walk) && walk[0] == y && walk[|walk| - 1] == z;
      assert FreeWalk(g, cells, walk);
      RegionSelf(g, cells, x);
      RegionStep(g, cells, x, x, y);
      ReachesTransitive(g, cells, x, y, z);
    }
  }

  /** The regions around a cell. */
  ghost function PartsAround(g: Graph, cells: seq<Field>, x: nat): set<set<nat>>
    requires |cells| == |g| && x < |g|
  {
    set k | 0 <= k < |g[x]| && Region(g, cells, g[x][k]) != {} :: Region(g, cells, g[x][k])
  }

  ghost function Union(parts: set<set<nat>>): set<nat>
  {
    set R, z | R in parts && z in R :: z
  }

  ghost predicate Disjoint(parts: set<set<nat>>)
  {
    forall P, Q :: P in parts && Q in parts && P != Q ==> P !! Q
  }

  /** A piece on a free cell splits the region of that cell: the regions around it are disjoint and make up the old
      region without the cell; two candidates are two such parts. */
  lemma RegionSplits(g: Graph, cells: seq<Field>, x: nat, f: Field)
    requires Regular(g) && Symmetric(g) && |cells| == |g| && x < |g| && !cells[x].Occupied() && f.Occupied()
    ensures var parts := PartsAround(g, cells[x := f], x);
            && Union(parts) == Region(g, cells, x) - {x} && Disjoint(parts)
            && Candidates(g, cells[x := f], g[x], |g[x]|) <= parts
  {
    var after := cells[x := f];
    var parts := PartsAround(g, after, x);
    forall z
      ensures z in Union(parts) <==> z in Region(g, cells, x) - {x}
    {
      InSomePart(g, cells, x, f, z);
    }
    forall P, Q | P in parts && Q in parts && P != Q
      ensures P !! Q
    {
      DisjointParts(g, after, x, P, Q);
    }
    CandidatesAreParts(g, after, x);
  }

  lemma CandidatesAreParts(g: Graph, cells: seq<Field>, x: nat)
    requires |cells| == |g| && x < |g|
    ensures Candidates(g, cells, g[x], |g[x]|) <= PartsAround(g, cells, x)
  {
  }

  lemma InSomePart(g: Graph, cells: seq<Field>, x: nat, f: Field, z: nat)
    requires Regular(g) && |cells| == |g| && x < |g| && !cells[x].Occupied() && f.Occupied()
    ensures z in Union(PartsAround(g, cells[x := f], x)) <==> z in Region(g, cells, x) - {x}
  {
    var after := cells[x := f];
    var parts := PartsAround(g, after, x);
    if z in Region(g, cells, x) && z != x {
      var walk :| FreeWalk(g, cells, walk) && walk[0] == x && walk[|walk| - 1] == z;
      WalkIsSplit(g, cells, x, f, walk);
      var k :| 0 <= k < |g[x]| && z in Region(g, after, g[x][k]);
      assert Region(g, after, g[x][k]) in parts;
    }
    if z in Union(parts) {
      var R :| R in parts && z in R;
      var k :| 0 <= k < |g[x]| && R == Region(g, after, g[x][k]);
      PartIsInside(g, cells, x, f, k);
    }
  }

  lemma DisjointParts(g: Graph, cells: seq<Field>, x: nat, P: set<nat>, Q: set<nat>)
    requires Regular(g) && Symmetric(g) && |cells| == |g| && x < |g|
    requires P in PartsAround(g, cells, x) && Q in PartsAround(g, cells, x) && P != Q
    ensures P !! Q
  {
    var j :| 0 <= j < |g[x]| && P == Region(g, cells, g[x][j]);
    var k :| 0 <= k < |g[x]| && Q == Region(g, cells, g[x][k]);
    forall z | z in P && z in Q
      ensures false
    {
      RegionsAreDisjoint(g, cells, g[x][j], g[x][k], z);
    }
  }

  /** Of two disjoint parts of S the smaller has at most half of its members. */
  lemma SmallerHalf<T>(S: set<T>, P: set<T>, Q: set<T>)
    requires P <= S && Q <= S && P !! Q && |P| <= |Q|
    ensures 2 * |P| <= |S|
  {
    SubsetSize(P + Q, S);
  }

  /** A move takes at most half of the free region into which it is placed, its own cell counted with both halves. */
  lemma TakesAtMostHalf(g: Graph, before: seq<Field>, after: seq<Field>, x: nat, player: int, ct: CellType, num: int)
    requires Regular(g) && Symmetric(g) && |before| == |g| && x < |g| && !before[x].Occupied() && IsPlayer(player)
    requires Occupation(g, before, after, x, player, ct, num)
    ensures 2 * num <= |Region(g, before, x)| + 1
  {
    var f := PlacedPiece(before[x], player, ct);
    var cells, whole := before[x := f], Region(g, before, x);
    RegionSelf(g, before, x);
    var all := Candidates(g, cells, g[x], |g[x]|);
    if |all| > 1 {
      var k: nat :| k < |g[x]| && Smallest(g, cells, g[x], k) && num == 1 + |Region(g, cells, g[x][k])|;
      var R := Region(g, cells, g[x][k]);
      var Q := AnotherMember(all, R);
      RegionSplits(g, before, x, f);
      HalfOfSplit(whole, x, PartsAround(g, cells, x), R, Q);
    } else {
      SubsetSize({x}, whole);
    }
  }

  lemma HalfOfSplit(whole: set<nat>, x: nat, parts: set<set<nat>>, P: set<nat>, Q: set<nat>)
    requires x in whole && Union(parts) == whole - {x}
    requires P in parts && Q in parts && P !! Q && |P| <= |Q|
    ensures 2 * |P| + 1 <= |whole|
  {
    forall z | z in P || z in Q
      ensures z in whole - {x}
    {
      assert z in Union(parts);
    }
    SmallerHalf(whole - {x}, P, Q);
  }

  /** Any cell but x that changes was free, becomes a normal cell of this owner, and does not border a dead cell. */
  ghost predicate OnlyTaken(g: Graph, before: seq<Field>, after: seq<Field>, x: nat, owner: int)
  {
    && |before| == |after| == |g|
    && (forall z: nat :: z < |g| && z != x && after[z] != before[z] ==>
          !before[z].Occupied() && after[z] == before[z].(owner := owner, lifetime := -1))
    && (forall z: nat, y: nat :: z < |g| && z != x && after[z] != before[z] && y in g[z] ==>
          y < |g| && after[y].typ != Dead)
  }

  /** What the placement of a piece other than a fire on a free cell does, cell by cell: the piece is hidden on its
      cell, and the result is the number of cells that change. */
  lemma OccupationEffect(g: Graph, before: seq<Field>, after: seq<Field>, x: nat, player: int, ct: CellType, num: int)
      returns (owner: int)
    requires Regular(g) && Symmetric(g) && |before| == |g| && x < |g| && !before[x].Occupied() && IsPlayer(player)
    requires Occupation(g, before, after, x, player, ct, num)
    ensures |after| == |g| && after[x].typ == ct && after[x].owner == player && after[x].hidden
    ensures IsPlayer(owner) && OnlyTaken(g, before, after, x, owner) && num == |Changed(before, after)|
  {
    owner := player;
    var cells := before[x := PlacedPiece(before[x], player, ct)];
    if |Candidates(g, cells, g[x], |g[x]|)| > 1 {
      var k: nat :| k < |g[x]| && Smallest(g, cells, g[x], k) && num == 1 + |Region(g, cells, g[x][k])|
        && Filled(cells, after, Region(g, cells, g[x][k]), Occupator(g, cells, Region(g, cells, g[x][k]), player, ct));
      var R := Region(g, cells, g[x][k]);
      owner := Occupator(g, cells, R, player, ct);
      FilledEffect(g, before, cells, after, x, k, owner);
    } else {
      assert Changed(before, after) == {x};
    }
  }

  lemma FilledEffect(g: Graph, before: seq<Field>, cells: seq<Field>, after: seq<Field>, x: nat, k: nat, owner: int)
    requires Regular(g) && |before| == |cells| == |g| && x < |g| && k < |g[x]| && IsPlayer(owner)
    requires cells == before[x := cells[x]] && cells[x] != before[x] && cells[x].Occupied()
    requires Region(g, cells, g[x][k]) in Candidates(g, cells, g[x], |g[x]|)
    requires Filled(cells, after, Region(g, cells, g[x][k]), owner)
    ensures |after| == |g| && after[x] == cells[x] && OnlyTaken(g, before, after, x, owner)
    ensures |Changed(before, after)| == 1 + |Region(g, cells, g[x][k])|
  {
    var R := Region(g, cells, g[x][k]);
    RegionIsFree(g, cells, g[x][k]);
    FilledChanges(cells, after, R, owner);
    NotNextToDead(g, cells, after, R, owner);
    assert x !in R;
    forall z: nat | z < |g|
      ensures z in Changed(before, after) <==> z in R + {x}
    {
      assert z in Changed(cells, after) <==> z in R;
    }
    assert Changed(before, after) == R + {x};
  }

  ghost function Changed(before: seq<Field>, after: seq<Field>): set<nat>
    requires |after| == |before|
  {
    set z: nat | z < |before| && after[z] != before[z]
  }

  lemma FilledChanges(cells: seq<Field>, after: seq<Field>, R: set<nat>, owner: int)
    requires Filled(cells, after, R, owner) && IsPlayer(owner)
    requires forall z :: z in R ==> z < |cells| && !cells[z].Occupied()
    ensures Changed(cells, after) == R
  {
    forall z: nat | z < |cells|
      ensures after[z] != cells[z] <==> z in R
    {
    }
  }

  lemma NotNextToDead(g: Graph, cells: seq<Field>, after: seq<Field>, R: set<nat>, owner: int)
    requires Regular(g) && |cells| == |g| && DeadBorder(g, cells, R) == {} && Filled(cells, after, R, owner)
    requires forall z :: z in R ==> z < |g| && !cells[z].Occupied()
    ensures forall z: nat, y: nat :: z in R && y in g[z] ==> y < |g| && after[y].typ != Dead
  {
    forall z: nat, y: nat | z in R && y in g[z]
      ensures y < |g| && after[y].typ != Dead
    {
      var j :| 0 <= j < |g[z]| && g[z][j] == y;
      assert cells[y].Occupied() ==> Borders(g, cells, R, y);
      assert y !in DeadBorder(g, cells, R);
    }
  }

  /** Besides one candidate region there is a free cell of another. */
  lemma FreeCellElsewhere(g: Graph, cells: seq<Field>, ns: seq<nat>, k: nat) returns (z: nat)
    requires Regular(g) && Symmetric(g) && |cells| == |g| && k < |ns|
    requires |Candidates(g, cells, ns, |ns|)| > 1
    ensures z < |g| && !cells[z].Occupied() && z !in Region(g, cells, ns[k])
  {
    var Q := AnotherMember(Candidates(g, cells, ns, |ns|), Region(g, cells, ns[k]));
    var j: nat :| j < |ns| && Q == Region(g, cells, ns[j]) && Candidate(g, cells, Q);
    z :| z in Q;
    RegionFree(g, cells, ns[j], z);
    if z in Region(g, cells, ns[k]) {
      RegionsAreDisjoint(g, cells, ns[j], ns[k], z);
    }
  }

  /** A move that takes a region leaves another one free. */
  lemma TakingLeavesFree(g: Graph, cells: seq<Field>, after: seq<Field>, x: nat, player: int, ct: CellType, num: int)
      returns (z: nat)
    requires Regular(g) && Symmetric(g) && |cells| == |g| && x < |g|
    requires Taken(g, cells, after, x, player, ct, num) && num > 1
    ensures z < |g| == |after| && !after[z].Occupied()
  {
    var k: nat :| k < |g[x]| && Smallest(g, cells, g[x], k)
      && Filled(cells, after, Region(g, cells, g[x][k]), Occupator(g, cells, Region(g, cells, g[x][k]), player, ct));
    z := FreeCellElsewhere(g, cells, g[x], k);
  }

  lemma TakingDoesNotFinish(g: Graph, s: Game, m: FlatMove, placed: seq<Field>, num: int, aged: seq<Field>, t: Game)
    requires Inv(g, s) && Legal(s, m) && Placement(g, s, m, placed, num) && Concluded(g, s, m, placed, num, aged, t)
    requires num > 1
    ensures !Full(aged)
  {
    var cells := s.cells[m.at := PlacedPiece(s.cells[m.at], s.turn, m.cellType)];
    var z := TakingLeavesFree(g, cells, placed, m.at, s.turn, m.cellType, num);
    RevealKeepsFree(g, placed, aged, z);
  }

  /** Without a reveal, the piece just placed is hidden and no other cell has changed. */
  lemma HiddenAfterPlacement(g: Graph, s: Game, m: FlatMove, placed: seq<Field>, num: int)
    requires |s.cells| == |g| && Legal(s, m) && Placement(g, s, m, placed, num) && !Reveals(s, m, num)
    ensures placed == s.cells[m.at := PlacedPiece(s.cells[m.at], s.turn, m.cellType)]
    ensures NextMove(s, m) == s.move + 1
  {
  }

  lemma HiddenCells(cells: seq<Field>, x: nat, f: Field, turn: int)
    requires x < |cells| && IsPlayer(turn) && f.owner == turn && f.hidden && cells[x].owner != 3 - turn
    ensures cells[x := f][x].owner == turn && cells[x := f][x].hidden
    ensures NothingHidden(cells[x := f], 3 - turn) <==> NothingHidden(cells, 3 - turn)
  {
    var after := cells[x := f];
    forall z | 0 <= z < |cells|
      ensures after[z].owner == 3 - turn <==> cells[z].owner == 3 - turn
      ensures z != x ==> after[z] == cells[z]
    {
    }
  }

  lemma ScoreAfterReveal(g: Graph, s: Game, placed: seq<Field>, aged: seq<Field>, t: Game, p: int)
    requires |placed| == |g| && RevealStep(g, placed, aged) && Full(aged) && IsPlayer(p)
    requires Scored(aged, s.state, t.cells, t.score, t.state)
    ensures t.score.At(p) == |OwnedBy(t.cells, p)|
  {
    RevealHidesNothing(g, placed, aged);
    ScoreIsCompleteIff(aged, s.state, t.cells, t.score, t.state, p);
  }

  lemma ScoreWithoutReveal(g: Graph, s: Game, m: FlatMove, placed: seq<Field>, num: int, t: Game)
    requires |s.cells| == |g| && Legal(s, m) && Placement(g, s, m, placed, num) && !Reveals(s, m, num)
    requires IsPlayer(s.turn) && Scored(placed, s.state, t.cells, t.score, t.state) && Full(placed)
    ensures t.score.At(s.turn) != |OwnedBy(t.cells, s.turn)|
    ensures t.score.At(3 - s.turn) == |OwnedBy(t.cells, 3 - s.turn)| <==> NothingHidden(s.cells, 3 - s.turn)
  {
    HiddenAfterPlacement(g, s, m, placed, num);
    HiddenCells(s.cells, m.at, PlacedPiece(s.cells[m.at], s.turn, m.cellType), s.turn);
    ScoreIsCompleteIff(placed, s.state, t.cells, t.score, t.state, s.turn);
    ScoreIsCompleteIff(placed, s.state, t.cells, t.score, t.state, 3 - s.turn);
  }

  /** The final score is the number of owned cells exactly if the last move reveals the board; the mover's
      score misses at least the piece just placed otherwise, and the other player's the cells still hidden. */
  lemma FinalScoreIff(g: Graph, s: Game, m: FlatMove, t: Game)
    requires Inv(g, s) && Legal(s, m) && Step(g, s, m, t) && s.state != Finished && t.state == Finished
    ensures t.score.At(s.turn) == |OwnedBy(t.cells, s.turn)| <==> Reveals(s, m, 1)
    ensures t.score.At(3 - s.turn) == |OwnedBy(t.cells, 3 - s.turn)| <==>
              Reveals(s, m, 1) || NothingHidden(s.cells, 3 - s.turn)
  {
    var placed, num, aged :| Placement(g, s, m, placed, num) && Concluded(g, s, m, placed, num, aged, t);
    assert num <= 1 by {
      if num > 1 {
        TakingDoesNotFinish(g, s, m, placed, num, aged, t);
      }
    }
    FinalScore(g, s, m, placed, num, aged, t);
  }

  lemma FinalScore(g: Graph, s: Game, m: FlatMove, placed: seq<Field>, num: int, aged: seq<Field>, t: Game)
    requires |s.cells| == |g| && IsPlayer(s.turn) && Legal(s, m) && s.state != Finished && t.state == Finished
    requires Placement(g, s, m, placed, num) && Concluded(g, s, m, placed, num, aged, t) && num <= 1
    ensures t.score.At(s.turn) == |OwnedBy(t.cells, s.turn)| <==> Reveals(s, m, 1)
    ensures t.score.At(3 - s.turn) == |OwnedBy(t.cells, 3 - s.turn)| <==>
              Reveals(s, m, 1) || NothingHidden(s.cells, 3 - s.turn)
  {
    assert Reveals(s, m, 1) <==> Reveals(s, m, num);
    if Reveals(s, m, num) {
      ScoreAfterReveal(g, s, placed, aged, t, s.turn);
      ScoreAfterReveal(g, s, placed, aged, t, 3 - s.turn);
    } else {
      ScoreWithoutReveal(g, s, m, placed, num, t);
    }
  }

  // ---- The flag that is counted twice ----

  /** Who gets region R if every flag on its border counts once. */
  ghost function Majority(g: Graph, cells: seq<Field>, R: set<nat>, player: int): int
    requires |cells| == |g|
  {
    if |FlagBorder(g, cells, R, 3 - player)| > |FlagBorder(g, cells, R, player)| then 3 - player else player
  }

  /** Counting the placed flag twice changes the owner exactly if the opponent is ahead by one flag. */
  lemma DoubleCountMattersIff(g: Graph, cells: seq<Field>, R: set<nat>, player: int, ct: CellType)
    requires |cells| == |g| && IsPlayer(player)
    ensures Occupator(g, cells, R, player, ct) != Majority(g, cells, R, player) <==>
              ct == Flag && |FlagBorder(g, cells, R, 3 - player)| == |FlagBorder(g, cells, R, player)| + 1
  {
  }

  /** The opponent is never ahead: with one flag for each player, and the placed one on the border of every
      region around it, counting it twice never changes who gets a region. */
  lemma DoubleCountNeverMatters(g: Graph, s: Game, m: FlatMove, k: nat)
    requires Inv(g, s) && Legal(s, m) && !s.cells[m.at].Occupied() && k < |g[m.at]|
    ensures var cells := s.cells[m.at := PlacedPiece(s.cells[m.at], s.turn, m.cellType)];
            var R := Region(g, cells, g[m.at][k]);
            R != {} ==> Occupator(g, cells, R, s.turn, m.cellType) == Majority(g, cells, R, s.turn)
  {
    var cells := s.cells[m.at := PlacedPiece(s.cells[m.at], s.turn, m.cellType)];
    var R := Region(g, cells, g[m.at][k]);
    if R != {} && m.cellType == Flag {
      WriteFlag(s.cells, m.at, cells[m.at], 3 - s.turn);
      SubsetSize(FlagBorder(g, cells, R, 3 - s.turn), FlagCells(cells, 3 - s.turn));
      PlacedBorders(g, cells, m.at, k);
      assert m.at in FlagBorder(g, cells, R, s.turn);
      assert |FlagBorder(g, cells, R, s.turn)| >= 1;
      DoubleCountMattersIff(g, cells, R, s.turn, m.cellType);
    }
  }

  /** An occupied cell borders the region of each free neighbour. */
  lemma PlacedBorders(g: Graph, cells: seq<Field>, x: nat, k: nat)
    requires Regular(g) && Symmetric(g) && |cells| == |g| && x < |g| && k < |g[x]|
    requires cells[x].Occupied() && Region(g, cells, g[x][k]) != {}
    ensures Borders(g, cells, Region(g, cells, g[x][k]), x)
  {
    NonEmptyRegion(g, cells, g[x][k]);
    assert Mutual(g, x, k);
  }
}
