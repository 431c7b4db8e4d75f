/**
 The incremental caches of Flagz follow the cells: what a free cell remembers has
 a reason, move counters are cardinalities, scores are sums, and the grass that is
 captured is exactly the grass reachable by a walk of non-increasing value.
 */
module FlagzCaches {
  import opened Cells
  import opened HexBoard
  import opened FlagzRules
  import opened FlagzSpread
  import opened Moves

  // ---- Reasons ----

  lemma ReasonAt(g: Graph, x: nat, i: nat) returns (j: nat)
    requires Regular(g) && Symmetric(g) && x < |g| && i < |g[x]|
    ensures j < |g[g[x][i]]| && g[g[x][i]][j] == x
  {
    assert Mutual(g, x, i);
    j :| 0 <= j < |g[g[x][i]]| && g[g[x][i]][j] == x;
  }

  lemma NoteExplains(g: Graph, w: World, x: nat, i: nat)
    requires Spreading(g, w, x, i) && i < |g[x]| && CellsOk(w.cells) && Symmetric(g)
    requires !w.cells[g[x][i]].Occupied() && AllExplained(g, w.cells)
    ensures AllExplained(g, Note(w, g[x][i], w.cells[x].owner, w.cells[x].value).cells)
  {
    var f, z := w.cells[x], g[x][i];
    var after := Note(w, z, f.owner, f.value).cells;
    assert CellOk(f);
    forall y: nat, q | y < |g| && !after[y].Occupied() && IsPlayer(q)
      ensures ExplainedFor(g, after, y, q)
    {
      assert ExplainedFor(g, w.cells, y, q);
      if after[y].nextVal.At(q) == w.cells[y].nextVal.At(q) {
        if after[y].nextVal.At(q) != 0 {
          var j :| 0 <= j < |g[y]| && Explains(w.cells[g[y][j]], w.cells[y], q);
          assert Explains(after[g[y][j]], after[y], q);
        }
      } else {
        var j := ReasonAt(g, x, i);
        assert Explains(after[g[y][j]], after[y], q);
      }
    }
  }

  lemma CaptureExplains(g: Graph, w: World, x: nat, i: nat)
    requires Spreading(g, w, x, i) && i < |g[x]| && CellsOk(w.cells)
    requires Captures(w.cells[x], w.cells[g[x][i]]) && AllExplained(g, w.cells)
    ensures AllExplained(g, Capture(w, g[x][i], w.cells[x].owner).cells)
  {
    var z := g[x][i];
    var after := Capture(w, z, w.cells[x].owner).cells;
    forall y: nat, q | y < |g| && !after[y].Occupied() && IsPlayer(q)
      ensures ExplainedFor(g, after, y, q)
    {
      assert after[y] == w.cells[y] && ExplainedFor(g, w.cells, y, q);
      if after[y].nextVal.At(q) != 0 {
        var j :| 0 <= j < |g[y]| && Explains(w.cells[g[y][j]], w.cells[y], q);
        assert CellOk(w.cells[z]);
        assert Explains(after[g[y][j]], after[y], q);
      }
    }
  }

  lemma {:induction false} SpreadExplains(g: Graph, w: World, x: nat, i: nat)
    requires Spreading(g, w, x, i) && CellsOk(w.cells) && Symmetric(g) && AllExplained(g, w.cells)
    ensures AllExplained(g, Spread(g, w, x, i).cells)
    decreases GrassCells(w.cells), |g[x]| - i
  {
    if i < |g[x]| {
      var f, z := w.cells[x], g[x][i];
      if !w.cells[z].Occupied() {
        NoteGrows(g, w, x, i);
        NoteExplains(g, w, x, i);
        SpreadExplains(g, Note(w, z, f.owner, f.value), x, i + 1);
      } else if Captures(f, w.cells[z]) {
        var w1 := Capture(w, z, f.owner);
        CaptureGrows(g, w, x, i);
        CaptureExplains(g, w, x, i);
        SpreadStaysOk(g, w1, z, 0);
        SpreadExplains(g, w1, z, 0);
        SpreadExplains(g, Spread(g, w1, z, 0), x, i + 1);
      } else {
        SpreadExplains(g, w, x, i + 1);
      }
    }
  }

  // ---- Counters and scores ----

  ghost function FreeCells(cells: seq<Field>): set<nat>
  {
    set z: nat | z < |cells| && !cells[z].Occupied()
  }

  ghost function AvailCells(cells: seq<Field>, p: int): set<nat>
  {
    set z: nat | z < |cells| && !cells[z].Occupied() && cells[z].Available(p)
  }

  function Worth(f: Field, p: int): int
  {
    if f.owner == p then f.value else 0
  }

  function OwnedSum(cells: seq<Field>, p: int): int
  {
    if cells == [] then 0 else OwnedSum(cells[..|cells| - 1], p) + Worth(cells[|cells| - 1], p)
  }

  lemma {:induction false} OwnedSumUpdate(cells: seq<Field>, z: nat, f: Field, p: int)
    requires z < |cells|
    ensures OwnedSum(cells[z := f], p) == OwnedSum(cells, p) - Worth(cells[z], p) + Worth(f, p)
  {
    var n := |cells| - 1;
    if z == n {
      assert cells[z := f][..n] == cells[..n];
    } else {
      assert cells[z := f][..n] == cells[..n][z := f];
      OwnedSumUpdate(cells[..n], z, f, p);
    }
  }

  /** The move counters and scores of w are those of its cells. */
  ghost predicate CountedFor(w: World, p: int)
  {
    w.normal.At(p) == |AvailCells(w.cells, p)| && w.score.At(p) == OwnedSum(w.cells, p)
  }

  ghost predicate Counted(w: World)
  {
    CountedFor(w, 1) && CountedFor(w, 2)
  }

  function Open(f: Field, p: int): int
  {
    if !f.Occupied() && f.Available(p) then 1 else 0
  }

  lemma AvailUpdate(cells: seq<Field>, z: nat, f: Field, p: int)
    requires z < |cells|
    ensures |AvailCells(cells[z := f], p)| == |AvailCells(cells, p)| - Open(cells[z], p) + Open(f, p)
  {
    var a, a' := AvailCells(cells, p), AvailCells(cells[z := f], p);
    assert a - {z} == a' - {z};
    assert if Open(f, p) == 1 then a' == (a' - {z}) + {z} else a' == a' - {z};
    assert if Open(cells[z], p) == 1 then a == (a - {z}) + {z} else a == a - {z};
  }

  lemma NotedOpen(nb: Field, p: int, v: int, q: int)
    requires IsPlayer(p) && IsPlayer(q) && 0 <= v <= MAX_VALUE && !nb.Occupied() && CellOk(nb)
    ensures Open(Noted(nb, p, v), q) == Open(nb, q) + (if q == p then NotedMoves(nb, p, v) else 0)
  {
  }

  lemma NoteCounts(w: World, z: nat, p: int, v: int, q: int)
    requires z < |w.cells| && IsPlayer(p) && IsPlayer(q) && 0 <= v <= MAX_VALUE
    requires !w.cells[z].Occupied() && CellOk(w.cells[z]) && CountedFor(w, q)
    ensures CountedFor(Note(w, z, p, v), q)
  {
    var f := Noted(w.cells[z], p, v);
    OwnedSumUpdate(w.cells, z, f, q);
    AvailUpdate(w.cells, z, f, q);
    NotedOpen(w.cells[z], p, v, q);
  }

  lemma CaptureCounts(w: World, z: nat, p: int, q: int)
    requires z < |w.cells| && IsPlayer(p) && IsPlayer(q) && w.cells[z].typ == Grass && CellOk(w.cells[z])
    requires CountedFor(w, q)
    ensures CountedFor(Capture(w, z, p), q)
  {
    var w1 := Capture(w, z, p);
    OwnedSumUpdate(w.cells, z, w1.cells[z], q);
    assert AvailCells(w1.cells, q) == AvailCells(w.cells, q);
  }

  lemma {:induction false} SpreadCounts(g: Graph, w: World, x: nat, i: nat, q: int)
    requires Spreading(g, w, x, i) && CellsOk(w.cells) && IsPlayer(q) && CountedFor(w, q)
    ensures CountedFor(Spread(g, w, x, i), q)
    decreases GrassCells(w.cells), |g[x]| - i
  {
    if i < |g[x]| {
      var f, z := w.cells[x], g[x][i];
      if !w.cells[z].Occupied() {
        NoteGrows(g, w, x, i);
        assert CellOk(f) && CellOk(w.cells[z]);
        NoteCounts(w, z, f.owner, f.value, q);
        SpreadCounts(g, Note(w, z, f.owner, f.value), x, i + 1, q);
      } else if Captures(f, w.cells[z]) {
        var w1 := Capture(w, z, f.owner);
        CaptureGrows(g, w, x, i);
        assert CellOk(w.cells[z]);
        CaptureCounts(w, z, f.owner, q);
        SpreadStaysOk(g, w1, z, 0);
        SpreadCounts(g, w1, z, 0, q);
        SpreadCounts(g, Spread(g, w1, z, 0), x, i + 1, q);
      } else {
        SpreadCounts(g, w, x, i + 1, q);
      }
    }
  }

  // ---- What growth means for counters ----

  /** Growth of player p leaves the opponent's moves and score alone and never lowers p's own score. */
  lemma {:induction false} GrownScores(a: seq<Field>, b: seq<Field>, p: int)
    requires IsPlayer(p) && CellsOk(a) && AllGrown(a, b, p)
    ensures OwnedSum(b, 3 - p) == OwnedSum(a, 3 - p)
    ensures OwnedSum(b, p) >= OwnedSum(a, p)
  {
    if a != [] {
      var n := |a| - 1;
      assert CellOk(a[n]) && Grown(a[n], b[n], p);
      GrownScores(a[..n], b[..n], p);
    }
  }

  lemma GrownSets(a: seq<Field>, b: seq<Field>, p: int)
    requires IsPlayer(p) && CellsOk(a) && AllGrown(a, b, p)
    ensures FreeCells(b) == FreeCells(a)
    ensures AvailCells(b, 3 - p) == AvailCells(a, 3 - p)
  {
    forall z: nat | z < |a|
      ensures b[z].Occupied() == a[z].Occupied()
      ensures !a[z].Occupied() ==> b[z].nextVal.At(3 - p) == a[z].nextVal.At(3 - p)
    {
      assert Grown(a[z], b[z], p) && CellOk(a[z]);
    }
  }

  // ---- Which grass is captured ----

  /** Walking down: each next cell is grass, adjacent, and worth no more than the one before. */
  ghost predicate Downhill(g: Graph, cells: seq<Field>, walk: seq<nat>)
    requires |cells| == |g|
  {
    && |walk| > 0
    && (forall k :: 0 <= k < |walk| ==> walk[k] < |g|)
    && (forall k :: 0 < k < |walk| ==>
          && walk[k] in g[walk[k - 1]] && cells[walk[k]].typ == Grass
          && cells[walk[k]].value <= cells[walk[k - 1]].value)
  }

  ghost predicate DownhillFrom(g: Graph, cells: seq<Field>, x: nat, z: nat)
    requires |cells| == |g|
  {
    exists walk {:trigger Downhill(g, cells, walk)} :: Downhill(g, cells, walk) && walk[0] == x && walk[|walk| - 1] == z
  }

  /** C is closed under capturing from its members. */
  ghost predicate CaptureClosed(g: Graph, cells: seq<Field>, C: set<nat>)
    requires Regular(g) && |cells| == |g|
  {
    forall y, j :: 0 <= y < |g| && 0 <= j < |g[y]| && y in C && Captures(cells[y], cells[g[y][j]]) ==> g[y][j] in C
  }

  lemma ClosedStays(g: Graph, a: seq<Field>, b: seq<Field>, C: set<nat>, p: int)
    requires Regular(g) && |a| == |g| && IsPlayer(p) && AllGrown(a, b, p) && CaptureClosed(g, a, C)
    ensures CaptureClosed(g, b, C)
  {
    forall y, j | 0 <= y < |g| && 0 <= j < |g[y]| && y in C && Captures(b[y], b[g[y][j]])
      ensures g[y][j] in C
    {
      assert Grown(a[y], b[y], p) && Grown(a[g[y][j]], b[g[y][j]], p);
    }
  }

  /** Nothing outside a closed set that contains x changes hands. */
  ghost predicate Within(a: seq<Field>, b: seq<Field>, C: set<nat>)
    requires |a| == |b|
  {
    forall z: nat :: z < |a| && !Owned(a[z]) && Owned(b[z]) ==> z in C
  }

  lemma {:induction false} SpreadWithin(g: Graph, w: World, x: nat, i: nat, C: set<nat>)
    requires Spreading(g, w, x, i) && CellsOk(w.cells)
    requires x in C && CaptureClosed(g, w.cells, C)
    ensures Within(w.cells, Spread(g, w, x, i).cells, C)
    decreases GrassCells(w.cells), |g[x]| - i
  {
    if i < |g[x]| {
      var f, z := w.cells[x], g[x][i];
      if !w.cells[z].Occupied() {
        var w1 := Note(w, z, f.owner, f.value);
        NoteGrows(g, w, x, i);
        ClosedStays(g, w.cells, w1.cells, C, f.owner);
        SpreadWithin(g, w1, x, i + 1, C);
      } else if Captures(f, w.cells[z]) {
        var w1 := Capture(w, z, f.owner);
        CaptureGrows(g, w, x, i);
        ClosedStays(g, w.cells, w1.cells, C, f.owner);
        SpreadStaysOk(g, w1, z, 0);
        SpreadWithin(g, w1, z, 0, C);
        var w2 := Spread(g, w1, z, 0);
        ClosedStays(g, w1.cells, w2.cells, C, f.owner);
        SpreadWithin(g, w2, x, i + 1, C);
      } else {
        SpreadWithin(g, w, x, i + 1, C);
      }
    }
  }

  lemma DownhillIsClosed(g: Graph, cells: seq<Field>, x: nat) returns (C: set<nat>)
    requires Regular(g) && |cells| == |g| && x < |g|
    ensures x in C && CaptureClosed(g, cells, C)
    ensures forall z :: z in C ==> DownhillFrom(g, cells, x, z)
  {
    C := set z: nat | z < |g| && DownhillFrom(g, cells, x, z);
    assert Downhill(g, cells, [x]);
    forall y, j | 0 <= y < |g| && 0 <= j < |g[y]| && y in C && Captures(cells[y], cells[g[y][j]])
      ensures g[y][j] in C
    {
      var walk :| Downhill(g, cells, walk) && walk[0] == x && walk[|walk| - 1] == y;
      var longer := walk + [g[y][j]];
      assert Downhill(g, cells, longer) && longer[0] == x;
    }
  }

  /** A downhill walk from x reaches only cells that are owned when every owned cell is settled. */
  lemma {:induction false} DownhillIsCaptured(g: Graph, a: seq<Field>, b: seq<Field>, walk: seq<nat>, p: int)
    requires Regular(g) && |a| == |g| && IsPlayer(p) && AllGrown(a, b, p) && AllSettled(g, b)
    requires Downhill(g, a, walk) && Owned(a[walk[0]])
    ensures Owned(b[walk[|walk| - 1]])
    decreases |walk|
  {
    var n := |walk| - 1;
    if n == 0 {
      assert Grown(a[walk[0]], b[walk[0]], p);
    } else {
      DownhillIsCaptured(g, a, b, walk[..n], p);
      var y, z := walk[n - 1], walk[n];
      var j :| 0 <= j < |g[y]| && g[y][j] == z;
      assert Settled(b[y], b[g[y][j]]);
      assert Grown(a[y], b[y], p) && Grown(a[z], b[z], p);
    }
  }

  /** Spread captures exactly the grass that a downhill walk from x reaches. */
  lemma SpreadCapturesDownhill(g: Graph, w: World, x: nat, z: nat)
    requires Spreading(g, w, x, 0) && CellsOk(w.cells) && z < |g| && w.cells[z].typ == Grass
    requires forall y, j :: 0 <= y < |g| && 0 <= j < |g[y]| && y != x && Owned(w.cells[y])
                            ==> Settled(w.cells[y], w.cells[g[y][j]])
    ensures Owned(Spread(g, w, x, 0).cells[z]) <==> DownhillFrom(g, w.cells, x, z)
  {
    var r := Spread(g, w, x, 0).cells;
    SpreadStaysOk(g, w, x, 0);
    SpreadKeepsSettled(g, w, x);
    if DownhillFrom(g, w.cells, x, z) {
      var walk :| Downhill(g, w.cells, walk) && walk[0] == x && walk[|walk| - 1] == z;
      DownhillIsCaptured(g, w.cells, r, walk, w.cells[x].owner);
    }
    var C := DownhillIsClosed(g, w.cells, x);
    SpreadWithin(g, w, x, 0, C);
    assert CellOk(w.cells[z]);
  }
}
