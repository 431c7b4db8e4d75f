/**
 How occupyFields of hexz/classic.go turns floods into a decision: labels name
 connected regions, each region is measured once, and the smallest region without
 dead cells on its border is taken if there are at least two of them.
 */
module ClassicRegions {
  import opened Cells
  import opened HexBoard
  import opened ClassicFlood

  // ---- Regions are equivalence classes ----

  lemma ReachesTransitive(g: Graph, cells: seq<Field>, x: nat, y: nat, z: nat)
    requires |cells| == |g| && Reaches(g, cells, x, y) && Reaches(g, cells, y, z)
    ensures Reaches(g, cells, x, z)
  {
    var v :| FreeWalk(g, cells, v) && v[0] == x && v[|v| - 1] == y;
    var w :| FreeWalk(g, cells, w) && w[0] == y && w[|w| - 1] == z;
    var vw := v + w[1..];
    forall i | 0 < i < |vw|
      ensures vw[i] in g[vw[i - 1]]
    {
      if i >= |v| {
        assert vw[i] == w[i - |v| + 1] && vw[i - 1] == w[i - |v|];
      }
    }
    assert FreeWalk(g, cells, vw);
  }

  lemma {:induction false} WalkBack(g: Graph, cells: seq<Field>, walk: seq<nat>)
    requires Regular(g) && Symmetric(g) && |cells| == |g| && FreeWalk(g, cells, walk)
    ensures Reaches(g, cells, walk[|walk| - 1], walk[0])
    decreases |walk|
  {
    var n := |walk| - 1;
    if n == 0 {
      assert FreeWalk(g, cells, [walk[0]]);
    } else {
      WalkBack(g, cells, walk[..n]);
      var y, z := walk[n - 1], walk[n];
      assert walk[n] in g[walk[n - 1]];
      var j :| 0 <= j < |g[y]| && g[y][j] == z;
      assert Mutual(g, y, j);
      assert FreeWalk(g, cells, [z, y]);
      ReachesTransitive(g, cells, z, y, walk[0]);
    }
  }

  /** Cells of one region have the same region. */
  lemma RegionOfMember(g: Graph, cells: seq<Field>, x: nat, y: nat)
    requires Regular(g) && Symmetric(g) && |cells| == |g| && y in Region(g, cells, x)
    ensures Region(g, cells, y) == Region(g, cells, x)
  {
    var walk :| FreeWalk(g, cells, walk) && walk[0] == x && walk[|walk| - 1] == y;
    WalkBack(g, cells, walk);
    forall z: nat | z < |g|
      ensures z in Region(g, cells, y) <==> z in Region(g, cells, x)
    {
      if Reaches(g, cells, x, z) { ReachesTransitive(g, cells, y, x, z); }
      if Reaches(g, cells, y, z) { ReachesTransitive(g, cells, x, y, z); }
    }
  }

  lemma RegionOfOccupied(g: Graph, cells: seq<Field>, x: nat)
    requires |cells| == |g| && x < |g| && cells[x].Occupied()
    ensures Region(g, cells, x) == {}
  {
  }

  lemma NonEmptyRegion(g: Graph, cells: seq<Field>, x: nat)
    requires |cells| == |g| && x < |g| && Region(g, cells, x) != {}
    ensures !cells[x].Occupied() && x in Region(g, cells, x)
  {
    var z :| z in Region(g, cells, x);
    var walk :| FreeWalk(g, cells, walk) && walk[0] == x && walk[|walk| - 1] == z;
    RegionSelf(g, cells, x);
  }

  // ---- Measuring a region ----

  ghost function FlagBorder(g: Graph, cells: seq<Field>, R: set<nat>, p: int): set<nat>
    requires |cells| == |g|
  {
    set z: nat | z < |g| && Borders(g, cells, R, z) && cells[z].typ == Flag && cells[z].owner == p
  }

  ghost function DeadBorder(g: Graph, cells: seq<Field>, R: set<nat>): set<nat>
    requires |cells| == |g|
  {
    set z: nat | z < |g| && Borders(g, cells, R, z) && cells[z].typ == Dead
  }

  /** a is the measure of region R on top of the initial counters `base`. */
  ghost predicate Measures(g: Graph, cells: seq<Field>, R: set<nat>, a: Area, base: Area)
    requires |cells| == |g|
  {
    && a.size == base.size + |R| && a.dead == base.dead + |DeadBorder(g, cells, R)|
    && a.flags.p1 == base.flags.p1 + |FlagBorder(g, cells, R, 1)|
    && a.flags.p2 == base.flags.p2 + |FlagBorder(g, cells, R, 2)|
  }

  lemma FloodMeasures(g: Graph, cells: seq<Field>, a: Paint, x: nat, k: int)
    requires Sheet(g, cells, a.ms) && x < |g| && !cells[x].Occupied() && FlagsOwned(cells)
    requires forall z :: 0 <= z < |g| ==> a.ms[z] != k
    ensures Measures(g, cells, Region(g, cells, x), Flood(g, cells, a, x, k).area, a.area)
  {
    var r, R := Flood(g, cells, a, x, k), Region(g, cells, x);
    FloodFindsRegion(g, cells, a, x, k);
    forall z | z in R
      ensures z < |g| && !cells[z].Occupied()
    {
      RegionFree(g, cells, x, z);
    }
    assert FreeMarked(cells, r.ms, k) == R;
    assert DeadMarked(cells, r.ms, k) == DeadBorder(g, cells, R);
    assert FlagsMarked(cells, r.ms, k, 1) == FlagBorder(g, cells, R, 1);
    assert FlagsMarked(cells, r.ms, k, 2) == FlagBorder(g, cells, R, 2);
  }

  // ---- The labelling loop ----

  /** The label of a free cell after n neighbours: the first of them whose region contains it, else -1. */
  ghost function Label(g: Graph, cells: seq<Field>, ns: seq<nat>, n: nat, z: nat): (k: int)
    requires |cells| == |g| && n <= |ns|
    ensures -1 <= k < n
    ensures k >= 0 ==> z in Region(g, cells, ns[k])
    ensures k == -1 ==> forall j :: 0 <= j < n ==> z !in Region(g, cells, ns[j])
  {
    if n == 0 then -1
    else
      var k := Label(g, cells, ns, n - 1, z);
      if k == -1 && z in Region(g, cells, ns[n - 1]) then n - 1 else k
  }

  /** Neighbour k is the first one in its region. */
  ghost predicate Leader(g: Graph, cells: seq<Field>, ns: seq<nat>, k: nat)
    requires |cells| == |g| && k < |ns|
  {
    ns[k] in Region(g, cells, ns[k]) && Label(g, cells, ns, k, ns[k]) == -1
  }

  ghost predicate AreaOk(g: Graph, cells: seq<Field>, ns: seq<nat>, k: nat, a: Area, base: Area)
    requires |cells| == |g| && k < |ns|
  {
    if Leader(g, cells, ns, k) then Measures(g, cells, Region(g, cells, ns[k]), a, base) else a.size == 0
  }

  ghost predicate Sites(g: Graph, cells: seq<Field>, ns: seq<nat>)
  {
    Regular(g) && Symmetric(g) && |cells| == |g| && FlagsOwned(cells) && forall k :: 0 <= k < |ns| ==> ns[k] < |g|
  }

  /** The state of the labelling loop after the first n neighbours. */
  ghost predicate Labelled(g: Graph, cells: seq<Field>, ns: seq<nat>, n: nat,
                           ms: seq<int>, areas: seq<Area>, base: Area)
    requires Sites(g, cells, ns)
  {
    && n <= |ns| <= |areas| && |ms| == |g| && base.size == base.dead == 0
    && (forall z :: 0 <= z < |g| ==> -1 <= ms[z] < n)
    && (forall z: nat {:trigger Label(g, cells, ns, n, z)} :: z < |g| && !cells[z].Occupied() ==>
          ms[z] == Label(g, cells, ns, n, z))
    && (forall k: nat {:trigger AreaOk(g, cells, ns, k, areas[k], base)} :: k < n ==>
          AreaOk(g, cells, ns, k, areas[k], base))
    && (forall k :: n <= k < |areas| ==> areas[k] == base)
  }

  lemma LabelledStart(g: Graph, cells: seq<Field>, ns: seq<nat>, ms: seq<int>, areas: seq<Area>, base: Area)
    requires Sites(g, cells, ns) && |ns| <= |areas| && |ms| == |g| && base.size == base.dead == 0
    requires forall z :: 0 <= z < |ms| ==> ms[z] == -1
    requires forall k :: 0 <= k < |areas| ==> areas[k] == base
    ensures Labelled(g, cells, ns, 0, ms, areas, base)
  {
  }

  lemma LabelStep(g: Graph, cells: seq<Field>, ns: seq<nat>, n: nat, z: nat)
    requires Sites(g, cells, ns) && n < |ns| && z < |g|
    ensures Leader(g, cells, ns, n) ==>
              Label(g, cells, ns, n + 1, z) == if z in Region(g, cells, ns[n]) then n else Label(g, cells, ns, n, z)
    ensures !Leader(g, cells, ns, n) ==> Label(g, cells, ns, n + 1, z) == Label(g, cells, ns, n, z)
  {
    var x := ns[n];
    var k := Label(g, cells, ns, n, z);
    if z in Region(g, cells, x) {
      RegionOfMember(g, cells, x, z);
      var walk :| FreeWalk(g, cells, walk) && walk[0] == x && walk[|walk| - 1] == z;
      RegionSelf(g, cells, x);
      if k >= 0 {
        RegionOfMember(g, cells, ns[k], z);
        assert x in Region(g, cells, ns[k]);
      }
      var l := Label(g, cells, ns, n, x);
      if l >= 0 {
        RegionOfMember(g, cells, ns[l], x);
        assert z in Region(g, cells, ns[l]);
      }
    }
  }

  lemma SkipStep(g: Graph, cells: seq<Field>, ns: seq<nat>, n: nat, ms: seq<int>, areas: seq<Area>, base: Area)
    requires Sites(g, cells, ns) && Labelled(g, cells, ns, n, ms, areas, base) && n < |ns| && ms[ns[n]] != -1
    ensures Labelled(g, cells, ns, n + 1, ms, areas, base)
  {
    if cells[ns[n]].Occupied() {
      RegionOfOccupied(g, cells, ns[n]);
    }
    assert !Leader(g, cells, ns, n);
    forall z: nat | z < |g| && !cells[z].Occupied()
      ensures ms[z] == Label(g, cells, ns, n + 1, z)
    {
      LabelStep(g, cells, ns, n, z);
    }
  }

  lemma FloodStep(g: Graph, cells: seq<Field>, ns: seq<nat>, n: nat, ms: seq<int>, areas: seq<Area>, base: Area)
    requires Sites(g, cells, ns) && Labelled(g, cells, ns, n, ms, areas, base) && n < |ns| && ms[ns[n]] == -1
    ensures var r := Flood(g, cells, Paint(ms, base), ns[n], n);
            Labelled(g, cells, ns, n + 1, r.ms, areas[n := r.area], base)
  {
    var x := ns[n];
    var r := Flood(g, cells, Paint(ms, base), x, n);
    if cells[x].Occupied() {
      RegionOfOccupied(g, cells, x);
      assert !Leader(g, cells, ns, n);
    } else {
      RegionSelf(g, cells, x);
      assert Leader(g, cells, ns, n);
      FloodFindsRegion(g, cells, Paint(ms, base), x, n);
      FloodMeasures(g, cells, Paint(ms, base), x, n);
    }
    forall z: nat | z < |g| && !cells[z].Occupied()
      ensures r.ms[z] == Label(g, cells, ns, n + 1, z)
    {
      LabelStep(g, cells, ns, n, z);
    }
    var areas' := areas[n := r.area];
    forall k: nat | k < n + 1
      ensures AreaOk(g, cells, ns, k, areas'[k], base)
    {
      if k < n {
        assert AreaOk(g, cells, ns, k, areas[k], base);
      }
    }
  }

  // ---- The decision ----

  /** A region next to the placed piece that may be taken: free, and no dead cell on its border. */
  ghost predicate Candidate(g: Graph, cells: seq<Field>, R: set<nat>)
    requires |cells| == |g|
  {
    R != {} && DeadBorder(g, cells, R) == {}
  }

  /** The distinct candidate regions around the placed piece. */
  ghost function Candidates(g: Graph, cells: seq<Field>, ns: seq<nat>, n: nat): set<set<nat>>
    requires |cells| == |g| && n <= |ns|
  {
    set k | 0 <= k < n && Candidate(g, cells, Region(g, cells, ns[k])) :: Region(g, cells, ns[k])
  }

  /** What the program tests of area k. */
  predicate Eligible(a: Area)
  {
    a.size > 0 && a.dead == 0
  }

  function CountEligible(areas: seq<Area>, n: nat): nat
    requires n <= |areas|
  {
    if n == 0 then 0 else CountEligible(areas, n - 1) + (if Eligible(areas[n - 1]) then 1 else 0)
  }

  /** Neighbour k is the first one in a candidate region. */
  ghost predicate Chosen(g: Graph, cells: seq<Field>, ns: seq<nat>, k: nat)
    requires |cells| == |g| && k < |ns|
  {
    Leader(g, cells, ns, k) && Candidate(g, cells, Region(g, cells, ns[k]))
  }

  lemma EligibleIff(g: Graph, cells: seq<Field>, ns: seq<nat>, ms: seq<int>, areas: seq<Area>, base: Area, k: nat)
    requires Sites(g, cells, ns) && Labelled(g, cells, ns, |ns|, ms, areas, base) && k < |ns|
    ensures Eligible(areas[k]) <==> Chosen(g, cells, ns, k)
    ensures Leader(g, cells, ns, k) ==> Measures(g, cells, Region(g, cells, ns[k]), areas[k], base)
  {
    assert AreaOk(g, cells, ns, k, areas[k], base);
  }

  lemma LeaderOf(g: Graph, cells: seq<Field>, ns: seq<nat>, k: nat) returns (l: nat)
    requires Sites(g, cells, ns) && k < |ns| && Region(g, cells, ns[k]) != {}
    ensures l <= k && Leader(g, cells, ns, l) && Region(g, cells, ns[l]) == Region(g, cells, ns[k])
    ensures !Leader(g, cells, ns, k) ==> l < k
    decreases k
  {
    NonEmptyRegion(g, cells, ns[k]);
    if Leader(g, cells, ns, k) {
      l := k;
    } else {
      var j := Label(g, cells, ns, k, ns[k]);
      RegionOfMember(g, cells, ns[j], ns[k]);
      l := LeaderOf(g, cells, ns, j);
    }
  }

  lemma CandidatesStep(g: Graph, cells: seq<Field>, ns: seq<nat>, n: nat)
    requires |cells| == |g| && n < |ns|
    ensures var R, before := Region(g, cells, ns[n]), Candidates(g, cells, ns, n);
            Candidates(g, cells, ns, n + 1) == if Candidate(g, cells, R) then before + {R} else before
  {
  }

  lemma LeadersAreNew(g: Graph, cells: seq<Field>, ns: seq<nat>, n: nat)
    requires Sites(g, cells, ns) && n < |ns| && Candidate(g, cells, Region(g, cells, ns[n]))
    ensures Region(g, cells, ns[n]) in Candidates(g, cells, ns, n) <==> !Leader(g, cells, ns, n)
  {
    if !Leader(g, cells, ns, n) {
      var l := LeaderOf(g, cells, ns, n);
    }
  }

  lemma CandidatesGrow(g: Graph, cells: seq<Field>, ns: seq<nat>, n: nat)
    requires Sites(g, cells, ns) && n < |ns|
    ensures |Candidates(g, cells, ns, n + 1)|
            == |Candidates(g, cells, ns, n)| + if Chosen(g, cells, ns, n) then 1 else 0
  {
    CandidatesStep(g, cells, ns, n);
    if Candidate(g, cells, Region(g, cells, ns[n])) {
      LeadersAreNew(g, cells, ns, n);
    }
  }

  /** numAreas is the number of distinct candidate regions. */
  lemma {:induction false} CountIsCandidates(g: Graph, cells: seq<Field>, ns: seq<nat>, areas: seq<Area>, n: nat)
    requires Sites(g, cells, ns) && n <= |ns| <= |areas|
    requires forall k :: 0 <= k < |ns| ==> (Eligible(areas[k]) <==> Chosen(g, cells, ns, k))
    ensures CountEligible(areas, n) == |Candidates(g, cells, ns, n)|
  {
    if n == 0 {
      assert Candidates(g, cells, ns, n) == {};
    } else {
      CountIsCandidates(g, cells, ns, areas, n - 1);
      CandidatesGrow(g, cells, ns, n - 1);
    }
  }

  /** Neighbour k leads to the region to take: a smallest candidate, and the first such in neighbour order. */
  ghost predicate Smallest(g: Graph, cells: seq<Field>, ns: seq<nat>, k: nat)
    requires |cells| == |g| && k < |ns|
  {
    var R := Region(g, cells, ns[k]);
    && R in Candidates(g, cells, ns, |ns|)
    && (forall Q :: Q in Candidates(g, cells, ns, |ns|) ==> |R| <= |Q|)
    && (forall j :: 0 <= j < k && Region(g, cells, ns[j]) in Candidates(g, cells, ns, |ns|)
                    ==> |R| < |Region(g, cells, ns[j])|)
  }

  /** The index the selection loop ends with. */
  predicate FirstMin(areas: seq<Area>, n: nat, minK: int)
    requires n <= |areas|
  {
    if minK == -1 then forall j :: 0 <= j < n ==> !Eligible(areas[j])
    else
      && 0 <= minK < n && Eligible(areas[minK])
      && (forall j :: 0 <= j < n && Eligible(areas[j]) ==> areas[minK].size <= areas[j].size)
      && (forall j :: 0 <= j < minK && Eligible(areas[j]) ==> areas[minK].size < areas[j].size)
  }

  lemma FirstMinIsSmallest(g: Graph, cells: seq<Field>, ns: seq<nat>,
                           ms: seq<int>, areas: seq<Area>, base: Area, minK: nat)
    requires Sites(g, cells, ns) && Labelled(g, cells, ns, |ns|, ms, areas, base)
    requires minK < |ns| && FirstMin(areas, |ns|, minK)
    ensures Smallest(g, cells, ns, minK)
  {
    EligibleIff(g, cells, ns, ms, areas, base, minK);
    var all := Candidates(g, cells, ns, |ns|);
    forall j | 0 <= j < |ns| && Region(g, cells, ns[j]) in all
      ensures areas[minK].size <= |Region(g, cells, ns[j])|
      ensures j < minK ==> areas[minK].size < |Region(g, cells, ns[j])|
    {
      var i :| 0 <= i < |ns| && Candidate(g, cells, Region(g, cells, ns[i]))
        && Region(g, cells, ns[i]) == Region(g, cells, ns[j]);
      var l := LeaderOf(g, cells, ns, j);
      EligibleIff(g, cells, ns, ms, areas, base, l);
    }
  }

  /** After the loop a free cell is labelled minK exactly when it is in the region of that neighbour. */
  lemma LabelledLeader(g: Graph, cells: seq<Field>, ns: seq<nat>,
                       ms: seq<int>, areas: seq<Area>, base: Area, k: nat, z: nat)
    requires Sites(g, cells, ns) && Labelled(g, cells, ns, |ns|, ms, areas, base)
    requires k < |ns| && Leader(g, cells, ns, k) && z < |g|
    ensures (ms[z] == k && !cells[z].Occupied()) <==> z in Region(g, cells, ns[k])
  {
    var l := Label(g, cells, ns, |ns|, z);
    if z in Region(g, cells, ns[k]) {
      RegionFree(g, cells, ns[k], z);
      LabelIsFirst(g, cells, ns, |ns|, z, k);
    }
  }

  lemma {:induction false} LabelIsFirst(g: Graph, cells: seq<Field>, ns: seq<nat>, n: nat, z: nat, k: nat)
    requires Sites(g, cells, ns) && k < n <= |ns| && Leader(g, cells, ns, k) && z in Region(g, cells, ns[k])
    ensures Label(g, cells, ns, n, z) == k
  {
    LabelStep(g, cells, ns, n - 1, z);
    if k < n - 1 {
      LabelIsFirst(g, cells, ns, n - 1, z, k);
    }
  }
}
