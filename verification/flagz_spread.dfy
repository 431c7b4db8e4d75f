/**
 What the recursive neighbour update keeps and establishes.

 A cell y that is owned makes demands on each neighbour z (`Settled`): a free z
 must remember y, and a grass z must be worth more than y.  Demands once met stay
 met (`Grown` only tightens), and every cell that Spread newly turns into an owned
 one has all its demands met when Spread returns.
 */
module FlagzSpread {
  import opened Cells
  import opened HexBoard
  import opened FlagzRules
  import opened Moves

  // ---- Well-typed cells ----

  predicate CacheOk(f: Field, p: int)
  {
    -1 <= f.nextVal.At(p) <= MAX_VALUE && (f.blocked.At(p) <==> f.nextVal.At(p) == -1)
  }

  predicate CellOk(f: Field)
  {
    && CacheOk(f, 1) && CacheOk(f, 2)
    && match f.typ
       case Normal => (f.owner == 0 && f.value == 0) || (IsPlayer(f.owner) && 1 <= f.value <= MAX_VALUE)
       case Flag => IsPlayer(f.owner) && f.value == 0
       case Grass => f.owner == 0 && 1 <= f.value <= MAX_VALUE
       case Rock => f.owner == 0 && f.value == 0
       case _ => false
  }

  predicate CellsOk(cells: seq<Field>)
  {
    forall z {:trigger CellOk(cells[z])} :: 0 <= z < |cells| ==> CellOk(cells[z])
  }

  predicate Owned(f: Field)
  {
    f.owner > 0
  }

  // ---- Demands of owned cells on their neighbours ----

  predicate Settled(y: Field, z: Field)
  {
    var nv := z.nextVal.At(y.owner);
    && (!z.Occupied() ==> nv == -1 || (y.value < MAX_VALUE && 1 <= nv <= y.value + 1))
    && (z.typ == Grass ==> z.value > y.value)
  }

  ghost predicate AllSettled(g: Graph, cells: seq<Field>)
    requires Regular(g) && |cells| == |g|
  {
    forall y, j {:trigger Settled(cells[y], cells[g[y][j]])} ::
      0 <= y < |g| && 0 <= j < |g[y]| && Owned(cells[y]) ==> Settled(cells[y], cells[g[y][j]])
  }

  /** Cell y is a reason for the value that z remembers for player p. */
  predicate Explains(y: Field, z: Field, p: int)
  {
    && y.owner == p
    && if z.nextVal.At(p) == -1 then y.value == MAX_VALUE else z.nextVal.At(p) == y.value + 1
  }

  ghost predicate ExplainedFor(g: Graph, cells: seq<Field>, z: nat, p: int)
    requires Regular(g) && |cells| == |g| && z < |g|
  {
    cells[z].nextVal.At(p) != 0 ==> exists j :: 0 <= j < |g[z]| && Explains(cells[g[z][j]], cells[z], p)
  }

  ghost predicate AllExplained(g: Graph, cells: seq<Field>)
    requires Regular(g) && |cells| == |g|
  {
    forall z: nat, p {:trigger ExplainedFor(g, cells, z, p)} ::
      z < |g| && !cells[z].Occupied() && IsPlayer(p) ==> ExplainedFor(g, cells, z, p)
  }

  // ---- How cells change ----

  /** How one cell may change while player p's territory spreads. */
  predicate Grown(f: Field, f': Field, p: int)
  {
    || f' == f
    || (f.typ == Grass && f' == f.(typ := Normal, owner := p))
    || (!f.Occupied() && f' == f.(blocked := f.blocked.Set(p, f'.blocked.At(p)),
                                  nextVal := f.nextVal.Set(p, f'.nextVal.At(p)))
        && Tighter(f.nextVal.At(p), f'.nextVal.At(p)) && CacheOk(f', p))
  }

  predicate Tighter(nv: int, nv': int)
  {
    nv' == nv || nv' == -1 || (nv' > 0 && (nv == 0 || nv' <= nv))
  }

  ghost predicate AllGrown(cells: seq<Field>, cells': seq<Field>, p: int)
  {
    && |cells'| == |cells|
    && forall z :: 0 <= z < |cells| ==> Grown(cells[z], cells'[z], p)
  }

  lemma GrownTransitive(a: seq<Field>, b: seq<Field>, c: seq<Field>, p: int)
    requires IsPlayer(p) && AllGrown(a, b, p) && AllGrown(b, c, p)
    ensures AllGrown(a, c, p)
  {
    forall z | 0 <= z < |a|
      ensures Grown(a[z], c[z], p)
    {
      GrownChain(a[z], b[z], c[z], p);
    }
  }

  lemma GrownChain(a: Field, b: Field, c: Field, p: int)
    requires IsPlayer(p) && Grown(a, b, p) && Grown(b, c, p)
    ensures Grown(a, c, p)
  {
    if a != b && b != c && !a.Occupied() {
      assert c.nextVal == a.nextVal.Set(p, c.nextVal.At(p));
    }
  }

  lemma GrownStaysOk(a: seq<Field>, b: seq<Field>, p: int)
    requires IsPlayer(p) && CellsOk(a) && AllGrown(a, b, p)
    ensures CellsOk(b)
  {
    forall z | 0 <= z < |b|
      ensures CellOk(b[z])
    {
      assert CellOk(a[z]) && Grown(a[z], b[z], p);
    }
  }

  // Single steps of the update, as growth.

  lemma NotedGrows(f: Field, nb: Field)
    requires CellOk(f) && CellOk(nb) && IsPlayer(f.owner) && f.typ != Grass && !nb.Occupied()
    ensures var nb' := Noted(nb, f.owner, f.value);
            CellOk(nb') && Grown(nb, nb', f.owner) && Settled(f, nb') && !nb'.Occupied()
  {
  }

  lemma NoteGrows(g: Graph, w: World, x: nat, i: nat)
    requires Spreading(g, w, x, i) && i < |g[x]| && CellsOk(w.cells)
    requires !w.cells[g[x][i]].Occupied()
    ensures var w1 := Note(w, g[x][i], w.cells[x].owner, w.cells[x].value);
            && AllGrown(w.cells, w1.cells, w.cells[x].owner) && CellsOk(w1.cells) && Fits(g, w1)
            && GrassCells(w1.cells) == GrassCells(w.cells) && w1.cells[x] == w.cells[x]
            && Settled(w1.cells[x], w1.cells[g[x][i]])
  {
    var f, z := w.cells[x], g[x][i];
    var w1 := Note(w, z, f.owner, f.value);
    NotedGrows(f, w.cells[z]);
    assert forall y :: 0 <= y < |g| && y != z ==> w1.cells[y] == w.cells[y];
  }

  lemma CaptureGrows(g: Graph, w: World, x: nat, i: nat)
    requires Spreading(g, w, x, i) && i < |g[x]| && CellsOk(w.cells)
    requires Captures(w.cells[x], w.cells[g[x][i]])
    ensures var w1 := Capture(w, g[x][i], w.cells[x].owner);
            && AllGrown(w.cells, w1.cells, w.cells[x].owner) && CellsOk(w1.cells) && Fits(g, w1)
            && GrassCells(w1.cells) < GrassCells(w.cells) && w1.cells[x] == w.cells[x]
            && Owned(w1.cells[g[x][i]]) && w1.cells[g[x][i]].typ == Normal
  {
    var z := g[x][i];
    var w1 := Capture(w, z, w.cells[x].owner);
    assert z in GrassCells(w.cells) && z !in GrassCells(w1.cells);
    assert CellOk(w.cells[z]);
    assert CellOk(w1.cells[z]);
    assert forall y :: 0 <= y < |g| && y != z ==> w1.cells[y] == w.cells[y];
  }

  lemma {:induction false} SpreadGrows(g: Graph, w: World, x: nat, i: nat)
    requires Spreading(g, w, x, i) && CellsOk(w.cells)
    ensures AllGrown(w.cells, Spread(g, w, x, i).cells, w.cells[x].owner)
    decreases GrassCells(w.cells), |g[x]| - i
  {
    if i < |g[x]| {
      var f, z := w.cells[x], g[x][i];
      if !w.cells[z].Occupied() {
        var w1 := Note(w, z, f.owner, f.value);
        NoteGrows(g, w, x, i);
        SpreadGrows(g, w1, x, i + 1);
        GrownTransitive(w.cells, w1.cells, Spread(g, w1, x, i + 1).cells, f.owner);
      } else if Captures(f, w.cells[z]) {
        var w1 := Capture(w, z, f.owner);
        CaptureGrows(g, w, x, i);
        SpreadGrows(g, w1, z, 0);
        var w2 := Spread(g, w1, z, 0);
        GrownStaysOk(w1.cells, w2.cells, f.owner);
        SpreadGrows(g, w2, x, i + 1);
        GrownTransitive(w.cells, w1.cells, w2.cells, f.owner);
        GrownTransitive(w.cells, w2.cells, Spread(g, w2, x, i + 1).cells, f.owner);
      } else {
        SpreadGrows(g, w, x, i + 1);
      }
    }
  }

  lemma SpreadStaysOk(g: Graph, w: World, x: nat, i: nat)
    requires Spreading(g, w, x, i) && CellsOk(w.cells)
    ensures AllGrown(w.cells, Spread(g, w, x, i).cells, w.cells[x].owner)
    ensures CellsOk(Spread(g, w, x, i).cells)
  {
    SpreadGrows(g, w, x, i);
    GrownStaysOk(w.cells, Spread(g, w, x, i).cells, w.cells[x].owner);
  }

  // ---- Demands are met ----

  lemma SettledStays(y: Field, z: Field, y': Field, z': Field, p: int)
    requires IsPlayer(p) && CellOk(y) && CellOk(z) && Owned(y) && Grown(y, y', p) && Grown(z, z', p) && Settled(y, z)
    ensures Settled(y', z')
  {
  }

  /** After Spread, x has met demands from neighbour i on, and so has every newly owned cell. */
  ghost predicate SpreadSettles(g: Graph, before: seq<Field>, after: seq<Field>, x: nat, i: nat)
    requires Regular(g) && |before| == |after| == |g| && x < |g|
  {
    && (forall j :: i <= j < |g[x]| ==> Settled(after[x], after[g[x][j]]))
    && (forall y, j :: 0 <= y < |g| && 0 <= j < |g[y]| && !Owned(before[y]) && Owned(after[y])
                       ==> Settled(after[y], after[g[y][j]]))
  }

  lemma SettledStaysAll(g: Graph, a: seq<Field>, b: seq<Field>, p: int, y: nat, j: nat)
    requires Regular(g) && |a| == |g| && y < |g| && j < |g[y]|
    requires IsPlayer(p) && CellsOk(a) && AllGrown(a, b, p)
    requires Owned(a[y]) && Settled(a[y], a[g[y][j]])
    ensures Settled(b[y], b[g[y][j]])
  {
    SettledStays(a[y], a[g[y][j]], b[y], b[g[y][j]], p);
  }

  lemma {:induction false} SpreadSettlesNew(g: Graph, w: World, x: nat, i: nat)
    requires Spreading(g, w, x, i) && CellsOk(w.cells)
    ensures SpreadSettles(g, w.cells, Spread(g, w, x, i).cells, x, i)
    decreases GrassCells(w.cells), |g[x]| - i
  {
    var r := Spread(g, w, x, i);
    if i < |g[x]| {
      var f, z := w.cells[x], g[x][i];
      if !w.cells[z].Occupied() {
        var w1 := Note(w, z, f.owner, f.value);
        NoteGrows(g, w, x, i);
        SpreadSettlesNew(g, w1, x, i + 1);
        SpreadStaysOk(g, w1, x, i + 1);
        SettledStaysAll(g, w1.cells, r.cells, f.owner, x, i);
      } else if Captures(f, w.cells[z]) {
        var w1 := Capture(w, z, f.owner);
        CaptureGrows(g, w, x, i);
        var w2 := Spread(g, w1, z, 0);
        SpreadSettlesNew(g, w1, z, 0);
        SpreadStaysOk(g, w1, z, 0);
        SpreadSettlesNew(g, w2, x, i + 1);
        SpreadStaysOk(g, w2, x, i + 1);
        SettlesJoin(g, w.cells, w1.cells, w2.cells, r.cells, x, z, i, f.owner);
      } else {
        SpreadSettlesNew(g, w, x, i + 1);
        SpreadStaysOk(g, w, x, i + 1);
        SettledStaysAll(g, w.cells, r.cells, f.owner, x, i);
      }
    }
  }

  /** The capture case: z was captured, its neighbours were updated, then the loop of x went on. */
  lemma SettlesJoin(g: Graph, w: seq<Field>, w1: seq<Field>, w2: seq<Field>, r: seq<Field>,
                    x: nat, z: nat, i: nat, p: int)
    requires Regular(g) && |w| == |w1| == |w2| == |r| == |g| && x < |g| && z < |g| && i < |g[x]| && g[x][i] == z
    requires IsPlayer(p) && w1 == w[z := w[z].(typ := Normal, owner := p)]
    requires CellsOk(w2) && AllGrown(w2, r, p) && CellsOk(w1) && AllGrown(w1, w2, p) && Owned(w1[x])
    requires SpreadSettles(g, w1, w2, z, 0) && SpreadSettles(g, w2, r, x, i + 1)
    ensures SpreadSettles(g, w, r, x, i)
  {
    forall y, j | 0 <= y < |g| && 0 <= j < |g[y]| && !Owned(w[y]) && Owned(r[y])
      ensures Settled(r[y], r[g[y][j]])
    {
      if Owned(w2[y]) {
        SettledStaysAll(g, w2, r, p, y, j);
      }
    }
    SettledStays(w1[x], w1[z], r[x], r[z], p) by {
      GrownTransitive(w1, w2, r, p);
      assert w1[z].typ == Normal;
    }
  }

  lemma SpreadKeepsSettled(g: Graph, w: World, x: nat)
    requires Spreading(g, w, x, 0) && CellsOk(w.cells)
    requires forall y, j :: 0 <= y < |g| && 0 <= j < |g[y]| && y != x && Owned(w.cells[y])
                            ==> Settled(w.cells[y], w.cells[g[y][j]])
    ensures AllSettled(g, Spread(g, w, x, 0).cells)
  {
    var r := Spread(g, w, x, 0).cells;
    SpreadStaysOk(g, w, x, 0);
    SpreadSettlesNew(g, w, x, 0);
    forall y, j | 0 <= y < |g| && 0 <= j < |g[y]| && Owned(r[y])
      ensures Settled(r[y], r[g[y][j]])
    {
      if y != x && Owned(w.cells[y]) {
        SettledStaysAll(g, w.cells, r, w.cells[x].owner, y, j);
      }
    }
  }
}
