/**
 The search tree of hexz/mcts.go as a value.  Nodes live in an arena in order of
 allocation and a *mcNode is an index into it.  Every node carries the game state
 that replaying its path reaches; the tree invariant ties counters to structure.
 */
module MctsTree {
  import opened Cells
  import HexBoard

  datatype Node = Node(
    r: int, c: int, cellType: CellType, turn: int,
    children: seq<nat>, wins: real, count: int, done: bool, liveChildren: int)

  /** The move that a node stands for. */
  datatype Ply = Ply(turn: int, r: int, c: int, cellType: CellType)

  function PlyOf(n: Node): Ply
  {
    Ply(n.turn, n.r, n.c, n.cellType)
  }

  /** games[n] is the state reached at node n, parent[n] the node that lists n as a child. */
  datatype Tree<S> = Tree(nodes: seq<Node>, games: seq<S>, parent: seq<int>)

  /** What the search needs to know of the game it plays; S is the type of game states.  A node has at most
      `most` children. */
  datatype Rules<!S> = Rules(
    ok: S -> bool, running: S -> bool, turn: S -> int, legal: (S, Ply) -> bool, next: (S, Ply) -> S, most: nat)

  function Unplayed(r: int, c: int, turn: int, cellType: CellType): Node
  {
    Node(r, c, cellType, turn, [], 0.0, 0, false, 0)
  }

  // ---- Sums over children ----

  function SumCount(nodes: seq<Node>, cs: seq<nat>): int
    requires forall k :: 0 <= k < |cs| ==> cs[k] < |nodes|
  {
    if cs == [] then 0 else SumCount(nodes, cs[..|cs| - 1]) + nodes[cs[|cs| - 1]].count
  }

  function SumWins(nodes: seq<Node>, cs: seq<nat>): real
    requires forall k :: 0 <= k < |cs| ==> cs[k] < |nodes|
  {
    if cs == [] then 0.0 else SumWins(nodes, cs[..|cs| - 1]) + nodes[cs[|cs| - 1]].wins
  }

  function Live(nodes: seq<Node>, cs: seq<nat>): int
    requires forall k :: 0 <= k < |cs| ==> cs[k] < |nodes|
  {
    if cs == [] then 0 else Live(nodes, cs[..|cs| - 1]) + (if nodes[cs[|cs| - 1]].done then 0 else 1)
  }

  predicate Inside(nodes: seq<Node>, cs: seq<nat>)
  {
    forall k :: 0 <= k < |cs| ==> cs[k] < |nodes|
  }

  lemma {:induction false} SumsFrame(a: seq<Node>, b: seq<Node>, cs: seq<nat>)
    requires Inside(a, cs) && Inside(b, cs)
    requires forall k :: 0 <= k < |cs| ==> a[cs[k]].count == b[cs[k]].count && a[cs[k]].wins == b[cs[k]].wins
                                           && a[cs[k]].done == b[cs[k]].done
    ensures SumCount(a, cs) == SumCount(b, cs) && SumWins(a, cs) == SumWins(b, cs) && Live(a, cs) == Live(b, cs)
  {
    if cs != [] {
      SumsFrame(a, b, cs[..|cs| - 1]);
    }
  }

  /** Only the child at position k differs between a and b. */
  lemma {:induction false} SumsOne(a: seq<Node>, b: seq<Node>, cs: seq<nat>, k: nat)
    requires Inside(a, cs) && Inside(b, cs) && k < |cs|
    requires forall j :: 0 <= j < |cs| && j != k ==>
               a[cs[j]].count == b[cs[j]].count && a[cs[j]].wins == b[cs[j]].wins && a[cs[j]].done == b[cs[j]].done
    ensures SumCount(b, cs) - SumCount(a, cs) == b[cs[k]].count - a[cs[k]].count
    ensures SumWins(b, cs) - SumWins(a, cs) == b[cs[k]].wins - a[cs[k]].wins
    ensures Live(b, cs) - Live(a, cs) == (if a[cs[k]].done then 1 else 0) - (if b[cs[k]].done then 1 else 0)
  {
    var n := |cs| - 1;
    if k == n {
      SumsFrame(a, b, cs[..n]);
    } else {
      SumsOne(a, b, cs[..n], k);
    }
  }

  lemma {:induction false} SumsFresh(nodes: seq<Node>, cs: seq<nat>)
    requires Inside(nodes, cs)
    requires forall k :: 0 <= k < |cs| ==> nodes[cs[k]].count == 0 && nodes[cs[k]].wins == 0.0 && !nodes[cs[k]].done
    ensures SumCount(nodes, cs) == 0 && SumWins(nodes, cs) == 0.0 && Live(nodes, cs) == |cs|
  {
    if cs != [] {
      SumsFresh(nodes, cs[..|cs| - 1]);
    }
  }

  /** Live is zero exactly when every child is done. */
  lemma {:induction false} LiveSpec(nodes: seq<Node>, cs: seq<nat>)
    requires Inside(nodes, cs)
    ensures 0 <= Live(nodes, cs) <= |cs|
    ensures Live(nodes, cs) == 0 <==> forall k :: 0 <= k < |cs| ==> nodes[cs[k]].done
  {
    if cs != [] {
      LiveSpec(nodes, cs[..|cs| - 1]);
      assert forall k :: 0 <= k < |cs| - 1 ==> cs[..|cs| - 1][k] == cs[k];
    }
  }

  lemma {:induction false} SumCountAtLeast(nodes: seq<Node>, cs: seq<nat>, k: nat)
    requires Inside(nodes, cs) && k < |cs|
    requires forall j :: 0 <= j < |cs| ==> nodes[cs[j]].count >= 0
    ensures SumCount(nodes, cs) >= nodes[cs[k]].count
  {
    var n := |cs| - 1;
    if k == n {
      SumCountNonNegative(nodes, cs[..n]);
    } else {
      SumCountAtLeast(nodes, cs[..n], k);
    }
  }

  lemma {:induction false} SumCountNonNegative(nodes: seq<Node>, cs: seq<nat>)
    requires Inside(nodes, cs)
    requires forall j :: 0 <= j < |cs| ==> nodes[cs[j]].count >= 0
    ensures SumCount(nodes, cs) >= 0
  {
    if cs != [] {
      SumCountNonNegative(nodes, cs[..|cs| - 1]);
    }
  }

  // ---- The invariant ----

  ghost predicate ChildOk<S>(t: Tree<S>, n: nat, k: nat)
    requires |t.nodes| == |t.parent| && n < |t.nodes| && k < |t.nodes[n].children|
  {
    var c := t.nodes[n].children[k];
    n < c < |t.nodes| && t.parent[c] == n
  }

  ghost predicate NodeShape<S>(t: Tree<S>, n: nat)
    requires |t.nodes| == |t.parent| && n < |t.nodes|
  {
    && (forall k :: 0 <= k < |t.nodes[n].children| ==> ChildOk(t, n, k))
    && HexBoard.Distinct(t.nodes[n].children)
    && (n > 0 ==> 0 <= t.parent[n] < n && n in t.nodes[t.parent[n]].children)
  }

  ghost predicate Shape<S>(t: Tree<S>)
  {
    && |t.nodes| == |t.games| == |t.parent| && |t.nodes| >= 1 && t.parent[0] == -1
    && forall n {:trigger NodeShape(t, n)} :: 0 <= n < |t.nodes| ==> NodeShape(t, n)
  }

  /** The k-th child of n is a legal move at n and carries the state that this move leads to. */
  ghost predicate LinkOk<S>(u: Rules<S>, t: Tree<S>, n: nat, k: nat)
    requires Shape(t) && n < |t.nodes| && k < |t.nodes[n].children|
  {
    NodeShapeAt(t, n);
    var c, s := t.nodes[n].children[k], t.games[n];
    t.nodes[c].turn == u.turn(s) && u.legal(s, PlyOf(t.nodes[c])) && t.games[c] == u.next(s, PlyOf(t.nodes[c]))
  }

  lemma NodeShapeAt<S>(t: Tree<S>, n: nat)
    requires Shape(t) && n < |t.nodes|
    ensures NodeShape(t, n)
    ensures forall k :: 0 <= k < |t.nodes[n].children| ==> n < t.nodes[n].children[k] < |t.nodes|
    ensures forall k :: 0 <= k < |t.nodes[n].children| ==> t.parent[t.nodes[n].children[k]] == n
    ensures Inside(t.nodes, t.nodes[n].children)
    ensures n > 0 ==> 0 <= t.parent[n] < n && n in t.nodes[t.parent[n]].children
  {
    assert NodeShape(t, n);
    forall k | 0 <= k < |t.nodes[n].children|
      ensures n < t.nodes[n].children[k] < |t.nodes| && t.parent[t.nodes[n].children[k]] == n
    {
      assert ChildOk(t, n, k);
    }
  }

  ghost predicate LinksOk<S>(u: Rules<S>, t: Tree<S>, n: nat)
    requires Shape(t) && n < |t.nodes|
  {
    && u.ok(t.games[n]) && |t.nodes[n].children| <= u.most
    && (t.nodes[n].children != [] ==> u.running(t.games[n]))
    && forall k {:trigger LinkOk(u, t, n, k)} :: 0 <= k < |t.nodes[n].children| ==> LinkOk(u, t, n, k)
  }

  /** `off` children of n became done that n.liveChildren does not account for yet. */
  ghost predicate DoneOk<S>(u: Rules<S>, t: Tree<S>, n: nat, off: int)
    requires Shape(t) && n < |t.nodes|
  {
    NodeShapeAt(t, n);
    var x := t.nodes[n];
    if x.children == [] then
      x.done ==> !u.running(t.games[n])
    else
      x.liveChildren == Live(t.nodes, x.children) + off && (x.done <==> x.liveChildren == 0)
  }

  /** A leaf is credited at most twice: by its play-out, and when it is found to end the game.  An inner node
      but the root is credited once more than its children, by its own play-out. */
  ghost predicate CountOk<S>(t: Tree<S>, n: nat)
    requires Shape(t) && n < |t.nodes|
  {
    NodeShapeAt(t, n);
    var x := t.nodes[n];
    var atMost := if n == 0 then 0 else 1;
    && 0.0 <= x.wins <= x.count as real
    && (x.children == [] ==> x.count <= if x.done then 2 else atMost)
    && (x.children != [] ==> 0 <= x.count - SumCount(t.nodes, x.children) <= atMost)
  }

  ghost predicate NodeOk<S>(u: Rules<S>, t: Tree<S>, n: nat, pend: int, off: int)
    requires Shape(t) && n < |t.nodes|
  {
    LinksOk(u, t, n) && DoneOk(u, t, n, if n == pend then off else 0) && CountOk(t, n)
  }

  ghost predicate RootOk<S>(u: Rules<S>, t: Tree<S>)
    requires Shape(t)
  {
    NodeShapeAt(t, 0);
    && u.running(t.games[0]) && t.nodes[0].turn == u.turn(t.games[0])
    && t.nodes[0].wins == SumWins(t.nodes, t.nodes[0].children)
    && (t.nodes[0].children == [] ==> !t.nodes[0].done)
  }

  /** The invariant between runs has off == 0; inside a run, node `pend` may lag behind by `off`. */
  ghost predicate TreeInv<S>(u: Rules<S>, t: Tree<S>, pend: int, off: int)
  {
    && Shape(t) && RootOk(u, t)
    && forall n {:trigger NodeOk(u, t, n, pend, off)} :: 0 <= n < |t.nodes| ==> NodeOk(u, t, n, pend, off)
  }
}
