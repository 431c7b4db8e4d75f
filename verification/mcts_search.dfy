/**
 MCTS of hexz/mcts.go as a mutable object playing Flagz.  The arena `nodes` is the
 tree; the ghost fields carry the state of the game at each node.
 */
module MctsSearch {
  import opened Cells
  import opened HexBoard
  import opened Boards
  import opened FlagzRules
  import opened FlagzCaches
  import opened FlagzGame
  import opened FlagzEngine
  import opened MctsTree
  import opened MctsSteps
  import opened MctsBounds
  import opened MctsMoves
  import opened Moves
  import opened Sets
  import opened Options

  function FlatPly(d: Dims, s: Game, p: Ply): FlatMove
  {
    FlatMove(p.turn, s.move, Locate(d, p.r, p.c), p.cellType)
  }

  /** Flagz on a board of these dimensions, as the search sees it. */
  ghost function GameRules(d: Dims): Rules<Game>
  {
    var g := GraphOf(d);
    Rules(
      (s: Game) => Inv(g, s),
      (s: Game) => s.state == Running,
      (s: Game) => s.turn,
      (s: Game, p: Ply) => Legal(s, FlatPly(d, s, p)),
      (s: Game, p: Ply) => if Shaped(g, s) && Legal(s, FlatPly(d, s, p)) then MakeMove(g, s, FlatPly(d, s, p)).game
                           else s,
      2 * Size(d))
  }

  function PlyMove(p: Ply, move: int): EngineMove
  {
    EngineMove(p.turn, move, p.r, p.c, p.cellType)
  }

  /** `end` is a finished game that play from s can reach. */
  ghost predicate EndsIn(g: Graph, s: Game, end: Game)
  {
    Inv(g, s) && end.state == Finished && exists ms :: end == FlagzGame.Run(g, s, ms)
  }

  lemma EndsHere(g: Graph, s: Game)
    requires Inv(g, s) && s.state == Finished
    ensures EndsIn(g, s, s)
  {
    assert FlagzGame.Run(g, s, []) == s;
  }

  // ---- How long a search can go on ----

  /** Free cells at each node. */
  ghost function FreeRanks(t: Tree<Game>): (rank: seq<nat>)
    ensures |rank| == |t.games|
  {
    seq(|t.games|, n requires 0 <= n < |t.games| => if t.games[n].freeCells > 0 then t.games[n].freeCells else 0)
  }

  /** Every move on an edge of the tree uses up a free cell. */
  lemma FreeCellsFall(d: Dims, t: Tree<Game>)
    requires TreeInv(GameRules(d), t, -1, 0)
    ensures Ranked(t, FreeRanks(t))
  {
    forall c: nat | 0 < c < |t.nodes|
      ensures RankedAt(t, FreeRanks(t), c)
    {
      NodeShapeAt(t, c);
      ChildFacts(GameRules(d), t, t.parent[c], c);
      NodeAt(GameRules(d), t, t.parent[c], -1, 0);
      NodeAt(GameRules(d), t, c, -1, 0);
      assert t.games[c].freeCells == t.games[t.parent[c]].freeCells - 1;
    }
  }

  /** No search from s makes more runs than this. */
  function MostRuns(d: Dims, s: Game): int
    requires s.freeCells >= 0
  {
    2 * (FullSize(2 * Size(d), s.freeCells) - 1)
  }

  lemma SearchIsBounded(d: Dims, t: Tree<Game>)
    requires TreeInv(GameRules(d), t, -1, 0)
    ensures t.games[0].freeCells >= 0 && t.nodes[0].count <= MostRuns(d, t.games[0])
  {
    NodeAt(GameRules(d), t, 0, -1, 0);
    FreeCellsFall(d, t);
    BoundedSet(FreeCells(t.games[0].world.cells), Size(d));
    NodesBounded(GameRules(d), t, FreeRanks(t));
    RunsAtMostTwice(GameRules(d), t);
  }

  /** UCT values: infinite for a node never played, else a number. */
  datatype Uct = Infinite | Finite(value: real)

  predicate Greater(a: Uct, b: Uct)
  {
    b.Finite? && (a.Infinite? || a.value > b.value)
  }

  /** a is at most b. */
  predicate NotGreater(a: Uct, b: Uct)
  {
    b.Infinite? || (a.Finite? && a.value <= b.value)
  }

  function Q(n: Node): real
  {
    if n.count == 0 then 0.0 else n.wins / n.count as real
  }

  /** The average of b is at least that of a, without a division; a node that was never played counts as zero. */
  predicate AverageAtLeast(b: Node, a: Node)
  {
    if b.count == 0 then a.wins == 0.0 else a.wins * b.count as real <= b.wins * a.count as real
  }

  predicate Played(n: Node)
  {
    0.0 <= n.wins <= n.count as real
  }

  lemma DivideTimes(x: real, y: real)
    requires y > 0.0
    ensures x / y * y == x
  {
  }

  lemma TimesMonotone(x: real, y: real, z: real)
    requires z > 0.0
    ensures x <= y <==> x * z <= y * z
  {
    if x < y {
      assert (y - x) * z > 0.0;
    } else if y < x {
      assert (x - y) * z > 0.0;
    }
  }

  lemma AverageOrder(a: Node, b: Node)
    requires Played(a) && Played(b)
    ensures AverageAtLeast(b, a) <==> Q(a) <= Q(b)
  {
    if a.count > 0 && b.count > 0 {
      var x, y, m, n := Q(a), Q(b), a.count as real, b.count as real;
      DivideTimes(a.wins, m);
      DivideTimes(b.wins, n);
      TimesMonotone(x, y, m);
      TimesMonotone(x * m, y * m, n);
      assert y * m * n == b.wins * m;
    } else if a.count > 0 {
      DivideTimes(a.wins, a.count as real);
      TimesMonotone(Q(a), 0.0, a.count as real);
    } else if b.count > 0 {
      DivideTimes(b.wins, b.count as real);
      TimesMonotone(0.0, Q(b), b.count as real);
    }
  }

  /** The i-th of these nodes has the largest average, and is the first such node. */
  ghost predicate FirstOfBest(nodes: seq<Node>, cs: seq<nat>, i: nat)
    requires Inside(nodes, cs)
  {
    && i < |cs|
    && (forall k :: 0 <= k < |cs| ==> AverageAtLeast(nodes[cs[i]], nodes[cs[k]]))
    && (forall k :: 0 <= k < i ==> !AverageAtLeast(nodes[cs[k]], nodes[cs[i]]))
  }

  lemma ByAverage(nodes: seq<Node>, cs: seq<nat>, i: nat)
    requires Inside(nodes, cs) && i < |cs| && forall k :: 0 <= k < |cs| ==> Played(nodes[cs[k]])
    requires forall k :: 0 <= k < |cs| ==> Q(nodes[cs[k]]) <= Q(nodes[cs[i]])
    requires forall k :: 0 <= k < i ==> Q(nodes[cs[k]]) < Q(nodes[cs[i]])
    ensures FirstOfBest(nodes, cs, i)
  {
    forall k | 0 <= k < |cs|
      ensures AverageAtLeast(nodes[cs[i]], nodes[cs[k]])
      ensures k < i ==> !AverageAtLeast(nodes[cs[k]], nodes[cs[i]])
    {
      AverageOrder(nodes[cs[k]], nodes[cs[i]]);
      AverageOrder(nodes[cs[i]], nodes[cs[k]]);
    }
  }

  class Mcts {
    const d: Dims
    const maxFlagPositions: nat
    const flagsFirst: bool
    /** The exploration term uctFactor * sqrt(log(parentCount) / count). */
    const explore: (int, int) -> real

    var nodes: seq<Node>
    ghost var games: seq<Game>
    ghost var parent: seq<int>

    ghost function T(): Tree<Game>
      reads this
    {
      Tree(nodes, games, parent)
    }

    ghost predicate Configured()
    {
      maxFlagPositions >= 1 && forall p, c :: p >= 1 && c >= 1 ==> explore(p, c) >= 0.0
    }

    constructor (d: Dims, maxFlagPositions: nat, flagsFirst: bool, explore: (int, int) -> real)
      ensures this.d == d && this.maxFlagPositions == maxFlagPositions
      ensures this.flagsFirst == flagsFirst && this.explore == explore
    {
      this.d, this.maxFlagPositions, this.flagsFirst, this.explore := d, maxFlagPositions, flagsFirst, explore;
      nodes, games, parent := [], [], [];
    }

    /** mcNode.U; the logarithm needs a parent count of at least one. */
    function U(n: Node, parentCount: int): (r: Uct)
      requires Configured()
      requires 0.0 <= n.wins && 0 <= n.count && (n.count > 0 ==> parentCount >= 1)
      ensures r.Finite? ==> r.value >= 0.0
    {
      if n.count == 0 then Infinite
      else Finite(n.wins / n.count as real + explore(parentCount, n.count))
    }

    /** A played node's value is its average plus the exploration term; only unplayed nodes are infinite. */
    lemma UctValue(n: Node, parentCount: int)
      requires Configured() && 0.0 <= n.wins && 0 <= n.count && (n.count > 0 ==> parentCount >= 1)
      ensures U(n, parentCount).Infinite? <==> n.count == 0
      ensures n.count > 0 ==>
                (U(n, parentCount).value - explore(parentCount, n.count)) * n.count as real == n.wins
    {
      if n.count > 0 {
        DivideTimes(n.wins, n.count as real);
      }
    }

    // ---- Selection ----

    ghost predicate Countable(n: nat)
      reads this
    {
      && n < |nodes| && Inside(nodes, nodes[n].children)
      && forall k :: 0 <= k < |nodes[n].children| ==>
           var c := nodes[nodes[n].children[k]];
           0.0 <= c.wins && 0 <= c.count && (c.count > 0 ==> nodes[n].count >= 1)
    }

    lemma TreeIsCountable(n: nat)
      requires TreeInv(GameRules(d), T(), -1, 0) && n < |nodes|
      ensures Countable(n)
    {
      var u, t := GameRules(d), T();
      NodeAt(u, t, n, -1, 0);
      NodeShapeAt(t, n);
      var cs := nodes[n].children;
      forall k | 0 <= k < |cs|
        ensures 0.0 <= nodes[cs[k]].wins <= nodes[cs[k]].count as real
      {
        NodeAt(u, t, cs[k], -1, 0);
      }
      forall k | 0 <= k < |cs|
        ensures nodes[cs[k]].count <= nodes[n].count
      {
        SumCountAtLeast(nodes, cs, k);
      }
    }

    /** getNextByUtc: a child of largest UCT value among those not done; none exactly when all are done. */
    method GetNextByUct(n: nat) returns (next: Option<nat>)
      requires Configured() && Countable(n)
      ensures next.None? <==> forall k :: 0 <= k < |nodes[n].children| ==> nodes[nodes[n].children[k]].done
      ensures next.Some? ==> next.value in nodes[n].children && !nodes[next.value].done
      ensures next.Some? ==> forall k :: 0 <= k < |nodes[n].children| && !nodes[nodes[n].children[k]].done ==>
                NotGreater(U(nodes[nodes[n].children[k]], nodes[n].count), U(nodes[next.value], nodes[n].count))
    {
      next := None;
      var maxUct := Finite(-1.0);
      var cs := nodes[n].children;
      for i := 0 to |cs|
        invariant next.None? ==> maxUct == Finite(-1.0) && forall k :: 0 <= k < i ==> nodes[cs[k]].done
        invariant next.Some? ==> && next.value in cs && !nodes[next.value].done
                                 && maxUct == U(nodes[next.value], nodes[n].count)
        invariant forall k :: 0 <= k < i && !nodes[cs[k]].done ==> NotGreater(U(nodes[cs[k]], nodes[n].count), maxUct)
      {
        if !nodes[cs[i]].done {
          var uct := U(nodes[cs[i]], nodes[n].count);
          if Greater(uct, maxUct) {
            next, maxUct := Some(cs[i]), uct;
          }
        }
      }
    }

    // ---- Backpropagation ----

    /** Credits every node of the path with the result of the game, from the end to the root. */
    method Backpropagate(path: seq<nat>, winner: int)
      requires Inside(nodes, path) && Distinct(path)
      modifies `nodes
      ensures nodes == Credited(old(nodes), path, winner)
    {
      var i := |path|;
      while i > 0
        invariant 0 <= i <= |path|
        invariant nodes == Credited(old(nodes), path[i..], winner)
      {
        i := i - 1;
        assert path[i..] == [path[i]] + path[i + 1..];
        var n := nodes[path[i]];
        if n.turn == winner {
          n := n.(wins := n.wins + 1.0);
        } else if winner == 0 {
          n := n.(wins := n.wins + 0.5);
        }
        n := n.(count := n.count + 1);
        nodes := nodes[path[i] := n];
      }
    }

    // ---- Children of a node ----

    lemma MoveIsProposal(ge: Engine, x: Node, eligible: set<nat>)
      requires ge.Valid() && ge.d == d && MoveBefore(d, x, ge.b.turn, x.cellType, Size(d)) && Pos(d, x) in eligible
      requires || (x.cellType == Normal && eligible == AvailCells(ge.b.flat[..], ge.b.turn))
               || (x.cellType == Flag && eligible == FreeCells(ge.b.flat[..]) && ge.State().Flags(ge.b.turn) > 0)
      ensures Proposal(GameRules(d), ge.State(), x)
    {
      var s, m := ge.State(), FlatPly(d, ge.State(), PlyOf(x));
      assert Legal(s, m);
      MakeMoveKeepsInv(GraphOf(d), s, m);
    }

    lemma FlagsAmong(normals: seq<Node>, flags: seq<Node>, cs: seq<Node>, turn: int, free: set<nat>)
      requires MovesOn(d, flags, turn, Flag, free, Size(d))
      requires cs == if |flags| > 0 && flagsFirst then flags else normals + flags
      ensures |flags| > 0 ==> exists k :: 0 <= k < |cs| && cs[k].cellType == Flag
      ensures |flags| > 0 && flagsFirst ==> forall k :: 0 <= k < |cs| ==> cs[k].cellType == Flag
    {
      forall k | 0 <= k < |flags|
        ensures flags[k].cellType == Flag
      {
        assert MoveBefore(d, flags[k], turn, Flag, Size(d));
      }
      if |flags| > 0 {
        assert cs[|cs| - |flags|] == flags[0];
      }
    }

    lemma NormalsAmong(normals: seq<Node>, cs: seq<Node>, turn: int, avail: set<nat>)
      requires MovesOn(d, normals, turn, Normal, avail, Size(d)) && |normals| == |avail| && normals <= cs
      ensures forall z :: z in avail ==> exists k :: 0 <= k < |cs| && Pos(d, cs[k]) == z && cs[k].cellType == Normal
    {
      forall z | z in avail
        ensures exists k :: 0 <= k < |cs| && Pos(d, cs[k]) == z && cs[k].cellType == Normal
      {
        MovesCoverAll(d, normals, turn, Normal, avail, Size(d), z);
        var k :| 0 <= k < |normals| && Pos(d, normals[k]) == z;
        assert MoveBefore(d, normals[k], turn, Normal, Size(d));
        assert cs[k] == normals[k];
      }
    }

    /** nextMoves of a running game: at least one child, all legal; all normal moves are among them
        unless flags are forced. */
    method NextMoves(ge: Engine) returns (cs: seq<Node>)
      requires ge.Valid() && ge.d == d && ge.State().state == Running && maxFlagPositions >= 1
      ensures cs != [] && Proposals(GameRules(d), ge.State(), cs) && |cs| <= 2 * Size(d)
      ensures flagsFirst && ge.State().Flags(ge.b.turn) > 0 ==> forall k :: 0 <= k < |cs| ==> cs[k].cellType == Flag
      ensures ge.State().Flags(ge.b.turn) > 0 ==> exists k :: 0 <= k < |cs| && cs[k].cellType == Flag
      ensures forall z ::
                z in AvailCells(ge.b.flat[..], ge.b.turn) && !(flagsFirst && ge.State().Flags(ge.b.turn) > 0) ==>
                exists k :: 0 <= k < |cs| && Pos(d, cs[k]) == z && cs[k].cellType == Normal
    {
      var normals, flags := CollectMoves(ge, maxFlagPositions);
      ghost var avail, free := AvailCells(ge.b.flat[..], ge.b.turn), FreeCells(ge.b.flat[..]);
      assert CountedFor(ge.World(), ge.b.turn);
      BoundedSet(avail, Size(d));
      BoundedSet(free, Size(d));
      if |flags| > 0 && flagsFirst {
        cs := flags;
      } else if |flags| == 0 {
        cs := normals;
      } else {
        cs := normals + flags;
      }
      FlagsAmong(normals, flags, cs, ge.b.turn, free);
      forall k | 0 <= k < |cs|
        ensures Proposal(GameRules(d), ge.State(), cs[k])
      {
        assert MoveBefore(d, cs[k], ge.b.turn, cs[k].cellType, Size(d));
        MoveIsProposal(ge, cs[k], if cs[k].cellType == Normal then avail else free);
      }
      if !(flagsFirst && ge.State().Flags(ge.b.turn) > 0) {
        NormalsAmong(normals, cs, ge.b.turn, avail);
      }
    }

    // ---- Random play-outs ----

    /** playRandomGame: no move of the play-out is refused, and it ends with a finished game. */
    method PlayRandomGame(ge: Engine, first: Ply) returns (winner: int)
      requires ge.Valid() && ge.d == d && Legal(ge.State(), FlatPly(d, ge.State(), first))
      modifies ge, ge.b, ge.b.flat
      ensures ge.Valid() && ge.State().state == Finished && winner == Winner(ge.State())
      ensures var s := MakeMove(GraphOf(d), old(ge.State()), FlatPly(d, old(ge.State()), first)).game;
              && Inv(GraphOf(d), s)
              && exists ms :: |ms| < old(ge.State()).freeCells && ge.State() == FlagzGame.Run(GraphOf(d), s, ms)
    {
      var ok := ge.MakeMove(PlyMove(first, ge.b.move));
      if !ok {
        assert false;
      }
      ghost var g, s := GraphOf(d), ge.State();
      ghost var ms: seq<FlatMove> := [];
      while !ge.IsDone()
        invariant ge.b == old(ge.b) && ge.b.flat == old(ge.b.flat)
        invariant ge.Valid() && ge.State() == FlagzGame.Run(g, s, ms) && |ms| + ge.freeCells <= s.freeCells
        decreases ge.freeCells
      {
        var u := Float64();
        var intn := Source();
        var m := ge.RandomMove(u, intn);
        if m.None? {
          assert false;
        } else {
          ghost var before := ge.State();
          ok := ge.MakeMove(m.value);
          if !ok {
            assert false;
          }
          RunAppend(g, s, ms, Flatten(d, m.value));
          ms := ms + [Flatten(d, m.value)];
        }
      }
      winner := ge.Winner();
    }

    // ---- One run ----

    /** Between `before` and t exactly the nodes of `full` were credited, with the winner of a game that is
        reached from its end. */
    ghost predicate CreditedRun(before: seq<Node>, t: Tree<Game>, path: seq<nat>, full: seq<nat>, end: Game)
    {
      && path <= full && PathOk(t, full) && full[|full| - 1] < |t.games|
      && EndsIn(GraphOf(d), t.games[full[|full| - 1]], end) && Tallied(before, t.nodes, full, Winner(end))
    }

    lemma CreditFromAbove(before: seq<Node>, t: Tree<Game>, path: seq<nat>, c: nat, full: seq<nat>, end: Game)
      requires CreditedRun(before, t, path + [c], full, end)
      ensures CreditedRun(before, t, path, full, end)
    {
    }

    lemma SettlingKeepsCredit(before: seq<Node>, t1: Tree<Game>, t2: Tree<Game>,
                              path: seq<nat>, full: seq<nat>, end: Game)
      requires CreditedRun(before, t1, path, full, end)
      requires Extends(t1, t2) && Shape(t2) && Tallied(t1.nodes, t2.nodes, [], 0)
      ensures CreditedRun(before, t2, path, full, end)
    {
      PathExtends(t1, t2, full);
      TallyEarlier(before, t1.nodes, t2.nodes, full, Winner(end));
    }

    ghost predicate Entered(ge: Engine, path: seq<nat>)
      reads this, ge, ge.b, ge.b.flat
    {
      && Configured() && ge.Valid() && ge.d == d
      && TreeInv(GameRules(d), T(), -1, 0) && PathOk(T(), path)
      && !nodes[path[|path| - 1]].done && games[path[|path| - 1]] == ge.State() && ge.State().state == Running
    }

    lemma ProposalsTally(u: Rules<Game>, s: Game, ns: seq<Node>, n: nat, cs: seq<Node>)
      requires n < |ns| && Proposals(u, s, cs)
      ensures Tallied(ns, ExpandedNodes(ns, n, cs), [], 0)
    {
      forall k | 0 <= k < |cs|
        ensures cs[k].count == 0 && cs[k].wins == 0.0
      {
        assert Proposal(u, s, cs[k]);
      }
      ExpandTallies(ns, n, cs);
    }

    /** Gives a leaf its children. */
    method Expand(ge: Engine, path: seq<nat>) returns (c: nat)
      requires Entered(ge, path) && nodes[path[|path| - 1]].children == []
      modifies `nodes, `games, `parent
      ensures TreeInv(GameRules(d), T(), -1, 0) && Extends(old(T()), T()) && PathOk(T(), path)
      ensures nodes[0].count == old(nodes[0].count) && Tallied(old(nodes), nodes, [], 0)
      ensures !nodes[path[|path| - 1]].done && games[path[|path| - 1]] == old(games[path[|path| - 1]])
      ensures c in nodes[path[|path| - 1]].children && c < |nodes| && nodes[c].children == [] && nodes[c].count == 0
      ensures GameRules(d).legal(games[path[|path| - 1]], PlyOf(nodes[c]))
    {
      ghost var u, t := GameRules(d), T();
      var n := path[|path| - 1];
      var cs := NextMoves(ge);
      if |cs| == 0 {
        assert false;
      }
      ExpandKeepsInv(u, t, n, cs);
      ExpandExtends(u, t, n, cs);
      ProposalsTally(u, games[n], nodes, n, cs);
      var first := |nodes|;
      nodes := ExpandedNodes(nodes, n, cs);
      games := games + NextGames(u, games[n], cs);
      parent := parent + seq(|cs|, _ => n);
      assert T() == Expanded(u, t, n, cs);
      var k := Intn(|cs|);
      c := first + k;
      ExpandedChild(u, t, n, cs, k);
      PathExtends(t, T(), path);
    }

    /** backpropagate over a path that is extended by the fresh child c of its last node. */
    method CreditPath(path: seq<nat>, c: nat, winner: int, ghost pend: int, ghost off: int)
      requires TreeInv(GameRules(d), T(), pend, off) && PathOk(T(), path)
      requires c in nodes[path[|path| - 1]].children
      requires c < |nodes| && nodes[c].children == [] && nodes[c].count <= Lag(nodes[c])
      modifies `nodes
      ensures TreeInv(GameRules(d), T(), pend, off) && Extends(old(T()), T()) && PathOk(T(), path)
      ensures nodes[0].count == old(nodes[0].count) + 1
      ensures |nodes| == |old(nodes)| && nodes[path[|path| - 1]].done == old(nodes[path[|path| - 1]].done)
      ensures nodes[path[|path| - 1]].children == old(nodes[path[|path| - 1]].children)
      ensures c < |nodes| && nodes[c].done == old(nodes[c].done)
      ensures Tallied(old(nodes), nodes, path + [c], winner) && PathOk(T(), path + [c])
    {
      ghost var t := T();
      ExtendPath(t, path, c);
      CreditTallies(nodes, path + [c], winner);
      PathDistinct(t, path + [c]);
      Backpropagate(path + [c], winner);
      CreditKeepsInv(GameRules(d), t, path + [c], winner, pend, off);
      UpdateExtends(t, nodes);
      PathExtends(t, T(), path);
      PathExtends(t, T(), path + [c]);
    }

    /** The play-out of a new child: its winner is that of a finished game reached from the child. */
    method PlayOut(ge: Engine, ghost s: Game, first: Ply) returns (winner: int, ghost end: Game)
      requires ge.Valid() && ge.d == d && ge.State() == s && GameRules(d).legal(s, first)
      modifies ge, ge.b, ge.b.flat
      ensures EndsIn(GraphOf(d), GameRules(d).next(s, first), end) && winner == Winner(end)
    {
      winner := PlayRandomGame(ge, first);
      end := ge.State();
    }

    /** The first half of run: give a leaf its children and play one of them out. */
    method RollOut(ge: Engine, path: seq<nat>) returns (depth: nat, ghost full: seq<nat>, ghost end: Game)
      requires Entered(ge, path) && nodes[path[|path| - 1]].children == []
      modifies `nodes, `games, `parent, ge, ge.b, ge.b.flat
      ensures TreeInv(GameRules(d), T(), -1, 0) && Extends(old(T()), T()) && PathOk(T(), path)
      ensures nodes[0].count == old(nodes[0].count) + 1
      ensures nodes[path[|path| - 1]].children != [] && !nodes[path[|path| - 1]].done
      ensures depth == |path| + 1 == |full| && CreditedRun(old(nodes), T(), path, full, end)
    {
      ghost var t := T();
      var c := Expand(ge, path);
      ghost var t1 := T();
      ChildFacts(GameRules(d), t1, path[|path| - 1], c);
      var winner;
      winner, end := PlayOut(ge, games[path[|path| - 1]], PlyOf(nodes[c]));
      CreditPath(path, c, winner, -1, 0);
      ExtendsTransitive(t, t1, T());
      TallyLater(t.nodes, t1.nodes, nodes, path + [c], winner);
      depth, full := |path| + 1, path + [c];
    }

    /** The descent step: an open inner node always has a child to descend to, and its move is legal. */
    method Select(n: nat) returns (c: nat)
      requires Configured() && TreeInv(GameRules(d), T(), -1, 0)
      requires n < |nodes| && nodes[n].children != [] && !nodes[n].done
      ensures c in nodes[n].children && c < |nodes| && !nodes[c].done
      ensures GameRules(d).legal(games[n], PlyOf(nodes[c]))
      ensures games[c] == GameRules(d).next(games[n], PlyOf(nodes[c]))
      ensures !GameRules(d).running(games[c]) ==> nodes[c].children == []
    {
      TreeIsCountable(n);
      OpenNodeHasLiveChild(GameRules(d), T(), n);
      var next := GetNextByUct(n);
      if next.None? {
        assert false;
      }
      c := next.value;
      ChildFacts(GameRules(d), T(), n, c);
    }

    /** Replays the stored move of a child on the clone; the move is never refused. */
    method PlayStored(ge: Engine, ghost s: Game, p: Ply) returns (finished: bool)
      requires ge.Valid() && ge.d == d && ge.State() == s && GameRules(d).legal(s, p)
      modifies ge, ge.b, ge.b.flat
      ensures ge.Valid() && ge.b == old(ge.b) && ge.b.flat == old(ge.b.flat)
      ensures ge.State() == GameRules(d).next(s, p) && 0 <= ge.freeCells < old(ge.freeCells)
      ensures finished <==> ge.State().state != Running
    {
      var ok := ge.MakeMove(PlyMove(p, ge.b.move));
      if !ok {
        assert false;
      }
      finished := ge.IsDone();
    }

    /** Marks a child whose game is over as done, and gives the credit for this run. */
    method FinishChild(path: seq<nat>, c: nat, winner: int)
      requires TreeInv(GameRules(d), T(), -1, 0) && PathOk(T(), path) && !nodes[path[|path| - 1]].done
      requires c in nodes[path[|path| - 1]].children && c < |nodes| && nodes[c].children == [] && !nodes[c].done
      requires !GameRules(d).running(games[c])
      modifies `nodes
      ensures TreeInv(GameRules(d), T(), path[|path| - 1], 1) && Extends(old(T()), T()) && PathOk(T(), path)
      ensures nodes[0].count == old(nodes[0].count) + 1
      ensures c in nodes[path[|path| - 1]].children && c < |nodes| && nodes[c].done
      ensures Tallied(old(nodes), nodes, path + [c], winner) && PathOk(T(), path + [c])
    {
      ghost var u, t, n := GameRules(d), T(), path[|path| - 1];
      FlagsTally(nodes, c, nodes[c].(done := true));
      NothingPending(u, t, -1, n);
      ghost var k :| 0 <= k < |nodes[n].children| && nodes[n].children[k] == c;
      MarkKeepsInv(u, t, n, k);
      NodeAt(u, t, c, n, 0);
      nodes := nodes[c := nodes[c].(done := true)];
      ghost var t1 := T();
      UpdateExtends(t, nodes);
      PathExtends(t, t1, path);
      CreditPath(path, c, winner, n, 1);
      ExtendsTransitive(t, t1, T());
      TallyLater(t.nodes, t1.nodes, nodes, path + [c], winner);
    }

    /** Takes one child off the counter of live ones; a node without any is done. */
    method CountDownNode(n: nat)
      requires n < |nodes|
      modifies `nodes
      ensures nodes == old(nodes)[n := CountDown(old(nodes)[n])]
    {
      var x := nodes[n].(liveChildren := nodes[n].liveChildren - 1);
      if x.liveChildren == 0 {
        x := x.(done := true);
      }
      nodes := nodes[n := x];
    }

    /** The end of run: tell the parent that one more child is done. */
    method SettleUp(path: seq<nat>, c: nat)
      requires PathOk(T(), path) && c < |nodes| && c in nodes[path[|path| - 1]].children
      requires TreeInv(GameRules(d), T(), path[|path| - 1], Lag(nodes[c]))
      modifies `nodes
      ensures PathOk(T(), path) && Extends(old(T()), T()) && nodes[0].count == old(nodes[0].count)
      ensures Tallied(old(nodes), nodes, [], 0)
      ensures TreeInv(GameRules(d), T(), parent[path[|path| - 1]], Lag(nodes[path[|path| - 1]]))
    {
      ghost var u, t := GameRules(d), T();
      var n := path[|path| - 1];
      FlagsTally(nodes, n, nodes[n]);
      if nodes[c].done {
        FlagsTally(nodes, n, CountDown(nodes[n]));
        CountDownNode(n);
        SettleKeepsInv(u, t, n);
        SettleExtends(t, n);
        PathExtends(t, SettledTree(t, n), path);
      } else {
        LiveChildKeepsOpen(u, t, n, c, n);
        NothingPending(u, t, n, parent[n]);
        UpdateExtends(t, nodes);
        assert nodes[n := nodes[n]] == nodes;
      }
    }

    /** The branch of run for a last move: the result goes up the path. */
    method EndRun(ge: Engine, path: seq<nat>, c: nat)
      requires TreeInv(GameRules(d), T(), -1, 0) && PathOk(T(), path) && !nodes[path[|path| - 1]].done
      requires c in nodes[path[|path| - 1]].children && c < |nodes| && nodes[c].children == [] && !nodes[c].done
      requires ge.Valid() && ge.d == d && c < |games| && games[c] == ge.State() && ge.State().state == Finished
      modifies `nodes
      ensures TreeInv(GameRules(d), T(), path[|path| - 1], 1) && Extends(old(T()), T()) && PathOk(T(), path)
      ensures nodes[0].count == old(nodes[0].count) + 1
      ensures c in nodes[path[|path| - 1]].children && c < |nodes| && nodes[c].done
      ensures CreditedRun(old(nodes), T(), path, path + [c], ge.State())
    {
      var winner := ge.Winner();
      FinishChild(path, c, winner);
      EndsHere(GraphOf(d), ge.State());
    }

    /** The end of run, after the credit has been given. */
    method WrapUp(path: seq<nat>, c: nat, ghost t: Tree<Game>, ghost full: seq<nat>, ghost end: Game)
      requires PathOk(T(), path) && c < |nodes| && c in nodes[path[|path| - 1]].children
      requires TreeInv(GameRules(d), T(), path[|path| - 1], Lag(nodes[c]))
      requires Extends(t, T()) && CreditedRun(t.nodes, T(), path, full, end)
      modifies `nodes
      ensures PathOk(T(), path) && Extends(t, T()) && nodes[0].count == old(nodes[0].count)
      ensures TreeInv(GameRules(d), T(), parent[path[|path| - 1]], Lag(nodes[path[|path| - 1]]))
      ensures CreditedRun(t.nodes, T(), path, full, end)
    {
      ghost var t1 := T();
      SettleUp(path, c);
      ExtendsTransitive(t, t1, T());
      SettlingKeepsCredit(t.nodes, t1, T(), path, full, end);
    }

    /** run: every call completes without panic, counts one run at the root, and keeps the tree invariant;
        if the node it was called for became done, the node above has not been told yet.  Exactly the nodes of
        one path are credited, with the winner of a finished game that is reached from the end of that path. */
    method Run(ge: Engine, path: seq<nat>) returns (depth: nat, ghost full: seq<nat>, ghost end: Game)
      requires Entered(ge, path)
      modifies `nodes, `games, `parent, ge, ge.b, ge.b.flat
      ensures PathOk(T(), path) && Extends(old(T()), T())
      ensures TreeInv(GameRules(d), T(), parent[path[|path| - 1]], Lag(nodes[path[|path| - 1]]))
      ensures nodes[0].count == old(nodes[0].count) + 1
      ensures |path| < depth == |full| <= |path| + old(ge.freeCells)
      ensures CreditedRun(old(nodes), T(), path, full, end)
      decreases ge.freeCells
    {
      ghost var u, t := GameRules(d), T();
      var n := path[|path| - 1];
      if nodes[n].children == [] {
        depth, full, end := RollOut(ge, path);
        NothingPending(u, T(), -1, parent[n]);
        return;
      }
      var c := Select(n);
      var finished := PlayStored(ge, games[n], PlyOf(nodes[c]));
      if finished {
        EndRun(ge, path, c);
        depth, full, end := |path| + 1, path + [c], ge.State();
      } else {
        ExtendPath(t, path, c);
        depth, full, end := Run(ge, path + [c]);
        PathPrefix(T(), path, c);
        CreditFromAbove(t.nodes, T(), path, c, full, end);
      }
      WrapUp(path, c, t, full, end);
    }

    // ---- The search loop ----

    /** The loop of SuggestMove.  `deadline` is the first iteration number at which the time is up;
        the clock is read at every 64th iteration only.  The runs are bounded by the nodes of the tree and by the
        game, so that a search that is given the time explores its tree completely. */
    method Search(engine: Engine, deadline: nat) returns (runs: nat)
      requires Configured() && engine.Valid() && engine.d == d && engine.State().state == Running
      modifies `nodes, `games, `parent
      ensures TreeInv(GameRules(d), T(), -1, 0) && games[0] == engine.State()
      ensures nodes[0].count == runs
      ensures deadline > 0 <==> nodes[0].children != []
      ensures !nodes[0].done ==> runs >= deadline
      ensures games[0].freeCells >= 0 && runs <= MostRuns(d, games[0]) && runs <= 2 * (|nodes| - 1)
      ensures deadline > MostRuns(d, games[0]) ==> nodes[0].done
    {
      ghost var u, s := GameRules(d), engine.State();
      nodes := [Unplayed(0, 0, engine.b.turn, Normal)];
      games, parent := [s], [-1];
      RootAlone(u, nodes[0], s);
      ghost var limit := NextCheck(deadline);
      var n := 0;
      while true
        invariant engine.Valid() && engine.State() == s
        invariant TreeInv(u, T(), -1, 0) && games[0] == s && parent[0] == -1 && PathOk(T(), [0])
        invariant nodes[0].count == n && !nodes[0].done && (n > 0 <==> nodes[0].children != [])
        invariant n <= limit
        decreases limit - n
      {
        if n % 64 == 0 && n >= deadline {
          runs := n;
          break;
        }
        var finished := SearchOnce(engine);
        n := n + 1;
        if finished {
          runs := n;
          break;
        }
      }
      SearchIsBounded(d, T());
      RunsAtMostTwice(u, T());
    }

    /** One iteration: run on a fresh clone, starting at the root. */
    method SearchOnce(engine: Engine) returns (finished: bool)
      requires Configured() && engine.Valid() && engine.d == d && engine.State().state == Running
      requires TreeInv(GameRules(d), T(), -1, 0) && PathOk(T(), [0])
      requires games[0] == engine.State() && !nodes[0].done
      modifies `nodes, `games, `parent
      ensures TreeInv(GameRules(d), T(), -1, 0) && PathOk(T(), [0])
      ensures games[0] == old(games[0]) && nodes[0].count == old(nodes[0].count) + 1
      ensures nodes[0].children != [] && finished == nodes[0].done
    {
      var ge := engine.Clone();
      NodeAt(GameRules(d), T(), 0, -1, 0);
      ghost var t := T();
      var depth, full, end := Run(ge, [0]);
      assert Kept(t, T(), 0);
      NoSuchNodePending(GameRules(d), T(), Lag(nodes[0]));
      PlayedRootHasChildren(GameRules(d), T());
      finished := nodes[0].done;
    }

    ghost predicate ChildrenPlayed()
      reads this
    {
      |nodes| > 0 && Inside(nodes, nodes[0].children)
      && forall k :: 0 <= k < |nodes[0].children| ==> Played(nodes[nodes[0].children[k]])
    }

    lemma ChildrenArePlayed()
      requires TreeInv(GameRules(d), T(), -1, 0)
      ensures ChildrenPlayed()
    {
      NodeShapeAt(T(), 0);
      forall k | 0 <= k < |nodes[0].children|
        ensures Played(nodes[nodes[0].children[k]])
      {
        NodeAt(GameRules(d), T(), nodes[0].children[k], -1, 0);
      }
    }

    /** The final choice of SuggestMove: the first child of largest average. */
    method BestChild() returns (best: Option<nat>)
      requires ChildrenPlayed()
      ensures best.None? <==> nodes[0].children == []
      ensures best.Some? ==> exists i :: 0 <= i < |nodes[0].children| && nodes[0].children[i] == best.value
                                         && FirstOfBest(nodes, nodes[0].children, i)
    {
      best := None;
      var cs := nodes[0].children;
      ghost var at := 0;
      for i := 0 to |cs|
        invariant best.None? <==> i == 0
        invariant best.Some? ==> 0 <= at < i && cs[at] == best.value
        invariant best.Some? ==> forall k :: 0 <= k < i ==> Q(nodes[cs[k]]) <= Q(nodes[best.value])
        invariant best.Some? ==> forall k :: 0 <= k < at ==> Q(nodes[cs[k]]) < Q(nodes[best.value])
      {
        if best.None? || Q(nodes[cs[i]]) > Q(nodes[best.value]) {
          best, at := Some(cs[i]), i;
        }
      }
      if best.Some? {
        ByAverage(nodes, cs, at);
      }
    }

    /** m is the move of the first child of largest average. */
    ghost predicate IsBestMove(m: EngineMove, move: int)
      reads this
      requires |nodes| > 0 && Inside(nodes, nodes[0].children)
    {
      var cs := nodes[0].children;
      exists i {:trigger cs[i]} ::
        0 <= i < |cs| && FirstOfBest(nodes, cs, i) && m.move == move
        && m.player == nodes[cs[i]].turn && m.row == nodes[cs[i]].r && m.col == nodes[cs[i]].c
        && m.cellType == nodes[cs[i]].cellType
    }

    /** The move that SuggestMove builds from the best child. */
    method ChooseMove(move: int) returns (m: Option<EngineMove>)
      requires TreeInv(GameRules(d), T(), -1, 0) && games[0].move == move
      ensures m.None? <==> nodes[0].children == []
      ensures m.Some? ==> Legal(games[0], Flatten(d, m.value))
      ensures Inside(nodes, nodes[0].children) && (m.Some? ==> IsBestMove(m.value, move))
    {
      NodeShapeAt(T(), 0);
      ChildrenArePlayed();
      var best := BestChild();
      if best.None? {
        return None;
      }
      var b := best.value;
      ChildFacts(GameRules(d), T(), 0, b);
      m := Some(PlyMove(PlyOf(nodes[b]), move));
    }

    /** SuggestMove: a legal move of largest average, unless the time was up before the first run;
        then there is no child to choose and the program fails on a nil pointer. */
    method SuggestMove(engine: Engine, deadline: nat) returns (m: Option<EngineMove>, runs: nat)
      requires Configured() && engine.Valid() && engine.d == d && engine.State().state == Running
      modifies `nodes, `games, `parent
      ensures m.None? <==> deadline == 0
      ensures m.Some? ==> Legal(engine.State(), Flatten(d, m.value))
      ensures TreeInv(GameRules(d), T(), -1, 0) && games[0] == engine.State() && nodes[0].count == runs
      ensures Inside(nodes, nodes[0].children) && (m.Some? ==> IsBestMove(m.value, engine.b.move))
      ensures !nodes[0].done ==> runs >= deadline
      ensures games[0].freeCells >= 0 && (deadline > MostRuns(d, games[0]) ==> nodes[0].done)
    {
      runs := Search(engine, deadline);
      m := ChooseMove(engine.b.move);
    }

    /** mcNode.size with its explicit stack: every node of the tree is counted exactly once. */
    method TreeSize() returns (s: nat)
      requires Shape(T())
      ensures s == |nodes|
    {
      s := 0;
      var q: seq<nat> := [0];
      ghost var popped: set<nat> := {};
      ghost var t := T();
      while |q| > 0
        invariant Inside(nodes, q) && s == |popped| <= |nodes|
        invariant Frontier(t, popped, q)
        decreases |nodes| - s
      {
        var n := q[|q| - 1];
        q := q[..|q| - 1];
        s := s + 1;
        PopStep(t, popped, q, n);
        popped := popped + {n};
        q := q + nodes[n].children;
      }
      AllPopped(t, popped);
    }
  }

  /** The first iteration, from the deadline on, at which the clock is read. */
  function NextCheck(deadline: nat): (n: nat)
    ensures n >= deadline && n % 64 == 0 && (n == 0 <==> deadline == 0)
  {
    64 * ((deadline + 63) / 64)
  }

  lemma {:induction false} RunAppend(g: Graph, s: Game, ms: seq<FlatMove>, m: FlatMove)
    requires Inv(g, s)
    ensures Run(g, s, ms + [m]) == if Legal(Run(g, s, ms), m) then MakeMove(g, Run(g, s, ms), m).game else Run(g, s, ms)
    decreases |ms|
  {
    if ms == [] {
      assert (ms + [m])[1..] == [];
      if Legal(s, m) {
        MakeMoveKeepsInv(g, s, m);
      }
    } else {
      assert (ms + [m])[1..] == ms[1..] + [m];
      if Legal(s, ms[0]) {
        MakeMoveKeepsInv(g, s, ms[0]);
        RunAppend(g, MakeMove(g, s, ms[0]).game, ms[1..], m);
      } else {
        RunAppend(g, s, ms[1..], m);
      }
    }
  }
}
