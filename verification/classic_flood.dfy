/**
 The labelled flood fill of hexz/classic.go as a function on values, and the proof
 that it finds the connected region of free cells around its start together with
 the border of that region.
 */
module ClassicFlood {
  import opened Cells
  import opened HexBoard

  /** areas[k] of occupyFields. */
  datatype Area = Area(size: int, flags: Two<int>, dead: int)

  /** The label of every cell (-1 for none) and the area being measured. */
  datatype Paint = Paint(ms: seq<int>, area: Area)

  ghost predicate Sheet(g: Graph, cells: seq<Field>, ms: seq<int>)
  {
    Regular(g) && |cells| == |g| && |ms| == |g|
  }

  ghost function Unmarked(ms: seq<int>, k: int): set<nat>
  {
    set z: nat | z < |ms| && ms[z] != k
  }

  /** The callback of floodFill on a cell not yet seen in iteration k. */
  function Mark(f: Field, a: Paint, x: nat, k: int): Paint
    requires x < |a.ms|
  {
    var area :=
      if !f.Occupied() then a.area.(size := a.area.size + 1)
      else if f.typ == Flag then a.area.(flags := a.area.flags.Set(f.owner, a.area.flags.At(f.owner) + 1))
      else if f.typ == Dead then a.area.(dead := a.area.dead + 1)
      else a.area;
    Paint(a.ms[x := k], area)
  }

  ghost function Flood(g: Graph, cells: seq<Field>, a: Paint, x: nat, k: int): (r: Paint)
    requires Sheet(g, cells, a.ms) && x < |g|
    ensures Sheet(g, cells, r.ms) && Unmarked(r.ms, k) <= Unmarked(a.ms, k)
    decreases Unmarked(a.ms, k), 0
  {
    if a.ms[x] == k then a
    else
      var a1 := Mark(cells[x], a, x, k);
      assert x in Unmarked(a.ms, k) && x !in Unmarked(a1.ms, k);
      if cells[x].Occupied() then a1 else FloodFrom(g, cells, a1, x, k, 0)
  }

  ghost function FloodFrom(g: Graph, cells: seq<Field>, a: Paint, x: nat, k: int, i: nat): (r: Paint)
    requires Sheet(g, cells, a.ms) && x < |g| && i <= |g[x]|
    ensures Sheet(g, cells, r.ms) && Unmarked(r.ms, k) <= Unmarked(a.ms, k)
    decreases Unmarked(a.ms, k), |g[x]| - i + 1
  {
    if i == |g[x]| then a
    else FloodFrom(g, cells, Flood(g, cells, a, g[x][i], k), x, k, i + 1)
  }

  // ---- What a flood marks ----

  /** b is a with some more cells labelled k. */
  ghost predicate Painted(a: seq<int>, b: seq<int>, k: int)
  {
    |a| == |b| && forall z :: 0 <= z < |a| ==> b[z] == a[z] || b[z] == k
  }

  /** Around every free cell that became k between a and b, everything is k. */
  ghost predicate Closes(g: Graph, cells: seq<Field>, a: seq<int>, b: seq<int>, k: int)
    requires Sheet(g, cells, a) && Sheet(g, cells, b)
  {
    forall y, j :: 0 <= y < |g| && 0 <= j < |g[y]| && b[y] == k && a[y] != k && !cells[y].Occupied() ==> b[g[y][j]] == k
  }

  lemma {:induction false} FloodCloses(g: Graph, cells: seq<Field>, a: Paint, x: nat, k: int)
    requires Sheet(g, cells, a.ms) && x < |g|
    ensures var b := Flood(g, cells, a, x, k).ms;
            Painted(a.ms, b, k) && Closes(g, cells, a.ms, b, k) && b[x] == k
    decreases Unmarked(a.ms, k), 0
  {
    if a.ms[x] != k {
      var a1 := Mark(cells[x], a, x, k);
      assert x in Unmarked(a.ms, k) && x !in Unmarked(a1.ms, k);
      if !cells[x].Occupied() {
        FloodFromCloses(g, cells, a1, x, k, 0);
      }
    }
  }

  lemma {:induction false} FloodFromCloses(g: Graph, cells: seq<Field>, a: Paint, x: nat, k: int, i: nat)
    requires Sheet(g, cells, a.ms) && x < |g| && i <= |g[x]|
    ensures var b := FloodFrom(g, cells, a, x, k, i).ms;
            Painted(a.ms, b, k) && Closes(g, cells, a.ms, b, k) && forall j :: i <= j < |g[x]| ==> b[g[x][j]] == k
    decreases Unmarked(a.ms, k), |g[x]| - i + 1
  {
    if i < |g[x]| {
      var a1 := Flood(g, cells, a, g[x][i], k);
      FloodCloses(g, cells, a, g[x][i], k);
      FloodFromCloses(g, cells, a1, x, k, i + 1);
    }
  }

  /** C contains the neighbours of its free members. */
  ghost predicate Encloses(g: Graph, cells: seq<Field>, C: set<nat>)
    requires Regular(g) && |cells| == |g|
  {
    forall y, j :: 0 <= y < |g| && 0 <= j < |g[y]| && y in C && !cells[y].Occupied() ==> g[y][j] in C
  }

  ghost predicate MarksWithin(a: seq<int>, b: seq<int>, C: set<nat>)
    requires |a| == |b|
  {
    forall z: nat :: z < |a| && b[z] != a[z] ==> z in C
  }

  lemma {:induction false} FloodWithin(g: Graph, cells: seq<Field>, a: Paint, x: nat, k: int, C: set<nat>)
    requires Sheet(g, cells, a.ms) && x < |g| && x in C && Encloses(g, cells, C)
    ensures MarksWithin(a.ms, Flood(g, cells, a, x, k).ms, C)
    decreases Unmarked(a.ms, k), 0
  {
    if a.ms[x] != k {
      var a1 := Mark(cells[x], a, x, k);
      assert x in Unmarked(a.ms, k) && x !in Unmarked(a1.ms, k);
      if !cells[x].Occupied() {
        FloodFromWithin(g, cells, a1, x, k, 0, C);
      }
    }
  }

  lemma {:induction false} FloodFromWithin(g: Graph, cells: seq<Field>, a: Paint, x: nat, k: int, i: nat, C: set<nat>)
    requires Sheet(g, cells, a.ms) && x < |g| && i <= |g[x]| && x in C && !cells[x].Occupied() && Encloses(g, cells, C)
    ensures MarksWithin(a.ms, FloodFrom(g, cells, a, x, k, i).ms, C)
    decreases Unmarked(a.ms, k), |g[x]| - i + 1
  {
    if i < |g[x]| {
      FloodWithin(g, cells, a, g[x][i], k, C);
      FloodFromWithin(g, cells, Flood(g, cells, a, g[x][i], k), x, k, i + 1, C);
    }
  }

  // ---- What a flood counts ----

  ghost function FreeMarked(cells: seq<Field>, ms: seq<int>, k: int): set<nat>
  {
    set z: nat | z < |cells| && z < |ms| && ms[z] == k && !cells[z].Occupied()
  }

  ghost function FlagsMarked(cells: seq<Field>, ms: seq<int>, k: int, p: int): set<nat>
  {
    set z: nat | z < |cells| && z < |ms| && ms[z] == k && cells[z].typ == Flag && cells[z].owner == p
  }

  ghost function DeadMarked(cells: seq<Field>, ms: seq<int>, k: int): set<nat>
  {
    set z: nat | z < |cells| && z < |ms| && ms[z] == k && cells[z].typ == Dead
  }

  predicate FlagsOwned(cells: seq<Field>)
  {
    forall z :: 0 <= z < |cells| && cells[z].typ == Flag ==> cells[z].owner == 1 || cells[z].owner == 2
  }

  /** The area counters, less what they were at some starting point `base`, are the marked cells. */
  ghost predicate Tallied(cells: seq<Field>, a: Paint, k: int, base: Area)
  {
    && a.area.size - base.size == |FreeMarked(cells, a.ms, k)|
    && a.area.dead - base.dead == |DeadMarked(cells, a.ms, k)|
    && a.area.flags.p1 - base.flags.p1 == |FlagsMarked(cells, a.ms, k, 1)|
    && a.area.flags.p2 - base.flags.p2 == |FlagsMarked(cells, a.ms, k, 2)|
  }

  lemma MarkAddsFree(cells: seq<Field>, a: Paint, x: nat, k: int)
    requires |cells| == |a.ms| && x < |cells| && a.ms[x] != k
    ensures |FreeMarked(cells, Mark(cells[x], a, x, k).ms, k)|
            == |FreeMarked(cells, a.ms, k)| + (if !cells[x].Occupied() then 1 else 0)
  {
    var s, s' := FreeMarked(cells, a.ms, k), FreeMarked(cells, Mark(cells[x], a, x, k).ms, k);
    assert s' == if !cells[x].Occupied() then s + {x} else s;
  }

  lemma MarkAddsDead(cells: seq<Field>, a: Paint, x: nat, k: int)
    requires |cells| == |a.ms| && x < |cells| && a.ms[x] != k
    ensures |DeadMarked(cells, Mark(cells[x], a, x, k).ms, k)|
            == |DeadMarked(cells, a.ms, k)| + (if cells[x].typ == Dead then 1 else 0)
  {
    var s, s' := DeadMarked(cells, a.ms, k), DeadMarked(cells, Mark(cells[x], a, x, k).ms, k);
    assert s' == if cells[x].typ == Dead then s + {x} else s;
  }

  lemma MarkAddsFlag(cells: seq<Field>, a: Paint, x: nat, k: int, p: int)
    requires |cells| == |a.ms| && x < |cells| && a.ms[x] != k
    ensures |FlagsMarked(cells, Mark(cells[x], a, x, k).ms, k, p)|
            == |FlagsMarked(cells, a.ms, k, p)| + (if cells[x].typ == Flag && cells[x].owner == p then 1 else 0)
  {
    var s, s' := FlagsMarked(cells, a.ms, k, p), FlagsMarked(cells, Mark(cells[x], a, x, k).ms, k, p);
    assert s' == if cells[x].typ == Flag && cells[x].owner == p then s + {x} else s;
  }

  lemma MarkTallies(cells: seq<Field>, a: Paint, x: nat, k: int, base: Area)
    requires |cells| == |a.ms| && x < |cells| && a.ms[x] != k && FlagsOwned(cells) && Tallied(cells, a, k, base)
    ensures Tallied(cells, Mark(cells[x], a, x, k), k, base)
  {
    MarkAddsFree(cells, a, x, k);
    MarkAddsDead(cells, a, x, k);
    MarkAddsFlag(cells, a, x, k, 1);
    MarkAddsFlag(cells, a, x, k, 2);
  }

  lemma {:induction false} FloodTallies(g: Graph, cells: seq<Field>, a: Paint, x: nat, k: int, base: Area)
    requires Sheet(g, cells, a.ms) && x < |g| && FlagsOwned(cells) && Tallied(cells, a, k, base)
    ensures Tallied(cells, Flood(g, cells, a, x, k), k, base)
    decreases Unmarked(a.ms, k), 0
  {
    if a.ms[x] != k {
      var a1 := Mark(cells[x], a, x, k);
      assert x in Unmarked(a.ms, k) && x !in Unmarked(a1.ms, k);
      MarkTallies(cells, a, x, k, base);
      if !cells[x].Occupied() {
        FloodFromTallies(g, cells, a1, x, k, 0, base);
      }
    }
  }

  lemma {:induction false} FloodFromTallies(g: Graph, cells: seq<Field>, a: Paint, x: nat, k: int, i: nat, base: Area)
    requires Sheet(g, cells, a.ms) && x < |g| && i <= |g[x]| && FlagsOwned(cells) && Tallied(cells, a, k, base)
    ensures Tallied(cells, FloodFrom(g, cells, a, x, k, i), k, base)
    decreases Unmarked(a.ms, k), |g[x]| - i + 1
  {
    if i < |g[x]| {
      FloodTallies(g, cells, a, g[x][i], k, base);
      FloodFromTallies(g, cells, Flood(g, cells, a, g[x][i], k), x, k, i + 1, base);
    }
  }

  // ---- Regions ----

  /** A walk over adjacent free cells. */
  ghost predicate FreeWalk(g: Graph, cells: seq<Field>, walk: seq<nat>)
    requires |cells| == |g|
  {
    && |walk| > 0
    && (forall i :: 0 <= i < |walk| ==> walk[i] < |g| && !cells[walk[i]].Occupied())
    && (forall i :: 0 < i < |walk| ==> walk[i] in g[walk[i - 1]])
  }

  ghost predicate Reaches(g: Graph, cells: seq<Field>, x: nat, z: nat)
    requires |cells| == |g|
  {
    exists walk {:trigger FreeWalk(g, cells, walk)} :: FreeWalk(g, cells, walk) && walk[0] == x && walk[|walk| - 1] == z
  }

  /** The free cells connected to x through free cells; empty if x is occupied. */
  ghost function Region(g: Graph, cells: seq<Field>, x: nat): set<nat>
    requires |cells| == |g|
  {
    set z: nat | z < |g| && Reaches(g, cells, x, z)
  }

  /** z is occupied and touches the region R. */
  ghost predicate Borders(g: Graph, cells: seq<Field>, R: set<nat>, z: nat)
    requires |cells| == |g|
  {
    z < |g| && cells[z].Occupied() && exists y :: y in R && y < |g| && z in g[y]
  }

  lemma RegionFree(g: Graph, cells: seq<Field>, x: nat, z: nat)
    requires |cells| == |g| && z in Region(g, cells, x)
    ensures !cells[z].Occupied()
  {
    var walk :| FreeWalk(g, cells, walk) && walk[0] == x && walk[|walk| - 1] == z;
  }

  lemma RegionSelf(g: Graph, cells: seq<Field>, x: nat)
    requires |cells| == |g| && x < |g| && !cells[x].Occupied()
    ensures x in Region(g, cells, x)
  {
    assert FreeWalk(g, cells, [x]);
  }

  lemma RegionStep(g: Graph, cells: seq<Field>, x: nat, y: nat, z: nat)
    requires Regular(g) && |cells| == |g| && y in Region(g, cells, x) && z < |g| && z in g[y] && !cells[z].Occupied()
    ensures z in Region(g, cells, x)
  {
    var walk :| FreeWalk(g, cells, walk) && walk[0] == x && walk[|walk| - 1] == y;
    var w := walk + [z];
    assert FreeWalk(g, cells, w) && w[0] == x && w[|w| - 1] == z;
  }

  /** The region of x and its border enclose each other. */
  lemma RegionEncloses(g: Graph, cells: seq<Field>, x: nat) returns (C: set<nat>)
    requires Regular(g) && |cells| == |g| && x < |g| && !cells[x].Occupied()
    ensures x in C && Encloses(g, cells, C)
    ensures forall z: nat :: z < |g| && !cells[z].Occupied() ==> (z in C <==> z in Region(g, cells, x))
    ensures forall z: nat :: z < |g| && cells[z].Occupied() ==> (z in C <==> Borders(g, cells, Region(g, cells, x), z))
  {
    var R := Region(g, cells, x);
    C := set z: nat | z < |g| && if cells[z].Occupied() then Borders(g, cells, R, z) else z in R;
    RegionSelf(g, cells, x);
    forall y, j | 0 <= y < |g| && 0 <= j < |g[y]| && y in C && !cells[y].Occupied()
      ensures g[y][j] in C
    {
      if !cells[g[y][j]].Occupied() {
        RegionStep(g, cells, x, y, g[y][j]);
      }
    }
  }

  lemma {:induction false} WalkIsMarked(g: Graph, cells: seq<Field>, a: seq<int>, b: seq<int>, k: int, walk: seq<nat>)
    requires Sheet(g, cells, a) && Sheet(g, cells, b) && Closes(g, cells, a, b, k) && FreeWalk(g, cells, walk)
    requires forall z :: 0 <= z < |g| && !cells[z].Occupied() ==> a[z] != k
    requires b[walk[0]] == k
    ensures b[walk[|walk| - 1]] == k
    decreases |walk|
  {
    var n := |walk| - 1;
    if n > 0 {
      WalkIsMarked(g, cells, a, b, k, walk[..n]);
      assert walk[n] in g[walk[n - 1]];
      var j :| 0 <= j < |g[walk[n - 1]]| && g[walk[n - 1]][j] == walk[n];
    }
  }

  /** A flood with a new label from a free cell labels exactly its region and the border of the region,
      and measures them. */
  lemma FloodFindsRegion(g: Graph, cells: seq<Field>, a: Paint, x: nat, k: int)
    requires Sheet(g, cells, a.ms) && x < |g| && !cells[x].Occupied() && FlagsOwned(cells)
    requires forall z :: 0 <= z < |g| ==> a.ms[z] != k
    ensures var r, R := Flood(g, cells, a, x, k), Region(g, cells, x);
            && (forall z: nat :: z < |g| ==>
                  r.ms[z] == if (if cells[z].Occupied() then Borders(g, cells, R, z) else z in R) then k else a.ms[z])
            && Tallied(cells, r, k, a.area)
  {
    var r, R := Flood(g, cells, a, x, k), Region(g, cells, x);
    FloodCloses(g, cells, a, x, k);
    var C := RegionEncloses(g, cells, x);
    FloodWithin(g, cells, a, x, k, C);
    assert FreeMarked(cells, a.ms, k) == {} && DeadMarked(cells, a.ms, k) == {};
    assert FlagsMarked(cells, a.ms, k, 1) == {} && FlagsMarked(cells, a.ms, k, 2) == {};
    FloodTallies(g, cells, a, x, k, a.area);
    forall z: nat | z < |g| && z in C
      ensures r.ms[z] == k
    {
      if cells[z].Occupied() {
        var y :| y in R && y < |g| && z in g[y];
        RegionFree(g, cells, x, y);
        RegionIsMarked(g, cells, a.ms, r.ms, k, x, y);
        var j :| 0 <= j < |g[y]| && g[y][j] == z;
      } else {
        RegionIsMarked(g, cells, a.ms, r.ms, k, x, z);
      }
    }
  }

  lemma RegionIsMarked(g: Graph, cells: seq<Field>, a: seq<int>, b: seq<int>, k: int, x: nat, z: nat)
    requires Sheet(g, cells, a) && Sheet(g, cells, b) && Closes(g, cells, a, b, k)
    requires forall y :: 0 <= y < |g| && !cells[y].Occupied() ==> a[y] != k
    requires x < |g| && b[x] == k && z in Region(g, cells, x)
    ensures b[z] == k
  {
    var walk :| FreeWalk(g, cells, walk) && walk[0] == x && walk[|walk| - 1] == z;
    WalkIsMarked(g, cells, a, b, k, walk);
  }
}
