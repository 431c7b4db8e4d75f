/**
 The four updates that a search run makes to the tree - expanding a node, crediting
 a path, marking a finished child, settling the counter of its parent - and the
 proof that each keeps the tree invariant.
 */
module MctsSteps {
  import opened Cells
  import opened HexBoard
  import opened MctsTree
  import opened Sets

  lemma NodeAt<S>(u: Rules<S>, t: Tree<S>, n: nat, pend: int, off: int)
    requires TreeInv(u, t, pend, off) && n < |t.nodes|
    ensures NodeOk(u, t, n, pend, off)
  {
  }

  /** With nothing outstanding it does not matter which node is named. */
  lemma NothingPending<S>(u: Rules<S>, t: Tree<S>, p: int, q: int)
    requires TreeInv(u, t, p, 0)
    ensures TreeInv(u, t, q, 0)
  {
    forall n | 0 <= n < |t.nodes|
      ensures NodeOk(u, t, n, q, 0)
    {
      NodeAt(u, t, n, p, 0);
    }
  }

  lemma NoSuchNodePending<S>(u: Rules<S>, t: Tree<S>, off: int)
    requires TreeInv(u, t, -1, off)
    ensures TreeInv(u, t, -1, 0)
  {
    forall n | 0 <= n < |t.nodes|
      ensures NodeOk(u, t, n, -1, 0)
    {
      NodeAt(u, t, n, -1, off);
    }
  }

  lemma PlayedRootHasChildren<S>(u: Rules<S>, t: Tree<S>)
    requires TreeInv(u, t, -1, 0) && t.nodes[0].count > 0
    ensures t.nodes[0].children != []
  {
    NodeAt(u, t, 0, -1, 0);
  }

  /** Same fields that shape and links depend on. */
  predicate SameMove(a: Node, b: Node)
  {
    PlyOf(a) == PlyOf(b) && a.children == b.children
  }

  predicate SameMoves(a: seq<Node>, b: seq<Node>)
  {
    |a| == |b| && forall n :: 0 <= n < |a| ==> SameMove(a[n], b[n])
  }

  lemma ShapeStays<S>(t: Tree<S>, nodes: seq<Node>)
    requires Shape(t) && SameMoves(t.nodes, nodes)
    ensures Shape(t.(nodes := nodes))
  {
    var t' := t.(nodes := nodes);
    forall n | 0 <= n < |nodes|
      ensures NodeShape(t', n)
    {
      NodeShapeAt(t, n);
      forall k | 0 <= k < |nodes[n].children|
        ensures ChildOk(t', n, k)
      {
        assert ChildOk(t, n, k);
      }
    }
  }

  lemma LinksStay<S>(u: Rules<S>, t: Tree<S>, nodes: seq<Node>, n: nat)
    requires Shape(t) && SameMoves(t.nodes, nodes) && n < |t.nodes| && LinksOk(u, t, n)
    ensures Shape(t.(nodes := nodes)) && LinksOk(u, t.(nodes := nodes), n)
  {
    ShapeStays(t, nodes);
    NodeShapeAt(t, n);
    var t' := t.(nodes := nodes);
    forall k | 0 <= k < |nodes[n].children|
      ensures LinkOk(u, t', n, k)
    {
      assert LinkOk(u, t, n, k);
    }
  }

  // ---- Paths ----

  ghost predicate StepOk<S>(t: Tree<S>, path: seq<nat>, i: nat)
    requires Shape(t) && i < |path| && Inside(t.nodes, path)
  {
    i > 0 ==> path[i] in t.nodes[path[i - 1]].children
  }

  /** A path leads from the root from child to child. */
  ghost predicate PathOk<S>(t: Tree<S>, path: seq<nat>)
  {
    && Shape(t) && |path| >= 1 && path[0] == 0 && Inside(t.nodes, path)
    && forall i {:trigger StepOk(t, path, i)} :: 0 <= i < |path| ==> StepOk(t, path, i)
  }

  lemma PathParent<S>(t: Tree<S>, path: seq<nat>, i: nat)
    requires PathOk(t, path) && 0 < i < |path|
    ensures t.parent[path[i]] == path[i - 1] < path[i]
  {
    assert StepOk(t, path, i);
    NodeShapeAt(t, path[i - 1]);
  }

  lemma {:induction false} PathIncreasing<S>(t: Tree<S>, path: seq<nat>, i: nat, j: nat)
    requires PathOk(t, path) && i < j < |path|
    ensures path[i] < path[j]
    decreases j
  {
    PathParent(t, path, j);
    if i < j - 1 {
      PathIncreasing(t, path, i, j - 1);
    }
  }

  /** Among the children of n only the next path node can be on the path. */
  lemma ChildOnPath<S>(t: Tree<S>, path: seq<nat>, n: nat, k: nat)
    requires PathOk(t, path) && n < |t.nodes| && k < |t.nodes[n].children|
    ensures t.nodes[n].children[k] in path ==>
              exists i :: 0 <= i < |path| - 1 && path[i] == n && path[i + 1] == t.nodes[n].children[k]
  {
    NodeShapeAt(t, n);
    var c := t.nodes[n].children[k];
    if c in path {
      var j :| 0 <= j < |path| && path[j] == c;
      PathParent(t, path, j);
      assert path[j - 1] == n && path[j - 1 + 1] == c;
    }
  }

  lemma ExtendPath<S>(t: Tree<S>, path: seq<nat>, c: nat)
    requires PathOk(t, path) && c in t.nodes[path[|path| - 1]].children
    ensures c < |t.nodes| && PathOk(t, path + [c])
  {
    NodeShapeAt(t, path[|path| - 1]);
    var p' := path + [c];
    forall i | 0 <= i < |p'|
      ensures StepOk(t, p', i)
    {
      if i < |path| {
        assert StepOk(t, path, i);
      }
    }
  }

  // ---- Crediting a path ----

  function Share(turn: int, winner: int): real
  {
    if turn == winner then 1.0 else if winner == 0 then 0.5 else 0.0
  }

  function Credit(n: Node, winner: int): Node
  {
    n.(wins := n.wins + Share(n.turn, winner), count := n.count + 1)
  }

  ghost function Credited(nodes: seq<Node>, path: seq<nat>, winner: int): (r: seq<Node>)
    ensures SameMoves(nodes, r)
  {
    seq(|nodes|, i requires 0 <= i < |nodes| => if i in path then Credit(nodes[i], winner) else nodes[i])
  }

  lemma CreditOffPath<S>(t: Tree<S>, path: seq<nat>, winner: int, n: nat)
    requires PathOk(t, path) && n < |t.nodes|
    requires n !in path || n == path[|path| - 1]
    ensures Inside(t.nodes, t.nodes[n].children)
    ensures var b := Credited(t.nodes, path, winner);
            && SumCount(b, t.nodes[n].children) == SumCount(t.nodes, t.nodes[n].children)
            && SumWins(b, t.nodes[n].children) == SumWins(t.nodes, t.nodes[n].children)
            && Live(b, t.nodes[n].children) == Live(t.nodes, t.nodes[n].children)
  {
    NodeShapeAt(t, n);
    var b := Credited(t.nodes, path, winner);
    var cs := t.nodes[n].children;
    forall k | 0 <= k < |cs|
      ensures b[cs[k]] == t.nodes[cs[k]]
    {
      ChildOnPath(t, path, n, k);
      if cs[k] in path {
        var i :| 0 <= i < |path| - 1 && path[i] == n && path[i + 1] == cs[k];
        if i < |path| - 1 {
          PathIncreasing(t, path, i, |path| - 1);
        }
      }
    }
    SumsFrame(t.nodes, b, cs);
  }

  lemma CreditOnPath<S>(t: Tree<S>, path: seq<nat>, winner: int, i: nat)
    requires PathOk(t, path) && i + 1 < |path|
    ensures Inside(t.nodes, t.nodes[path[i]].children)
    ensures var b, cs := Credited(t.nodes, path, winner), t.nodes[path[i]].children;
            && SumCount(b, cs) == SumCount(t.nodes, cs) + 1
            && SumWins(b, cs) == SumWins(t.nodes, cs) + Share(t.nodes[path[i + 1]].turn, winner)
            && Live(b, cs) == Live(t.nodes, cs)
  {
    var n := path[i];
    NodeShapeAt(t, n);
    var b, cs := Credited(t.nodes, path, winner), t.nodes[n].children;
    assert StepOk(t, path, i + 1);
    var k :| 0 <= k < |cs| && cs[k] == path[i + 1];
    forall j | 0 <= j < |cs| && j != k
      ensures b[cs[j]] == t.nodes[cs[j]]
    {
      ChildOnPath(t, path, n, j);
      if cs[j] in path {
        var m :| 0 <= m < |path| - 1 && path[m] == n && path[m + 1] == cs[j];
        if m < i { PathIncreasing(t, path, m, i); }
        if i < m { PathIncreasing(t, path, i, m); }
      }
    }
    assert path[i + 1] in path;
    SumsOne(t.nodes, b, cs, k);
  }

  function Lag(n: Node): int
  {
    if n.done then 1 else 0
  }

  /** The end of a credited path is a leaf that was just added or has just been found finished. */
  ghost predicate FreshEnd<S>(t: Tree<S>, path: seq<nat>)
    requires PathOk(t, path)
  {
    var x := t.nodes[path[|path| - 1]];
    |path| >= 2 && x.children == [] && x.count <= Lag(x)
  }

  lemma CreditKeepsNode<S>(u: Rules<S>, t: Tree<S>, path: seq<nat>, winner: int, pend: int, off: int, n: nat)
    requires TreeInv(u, t, pend, off) && PathOk(t, path) && FreshEnd(t, path) && n < |t.nodes|
    ensures Shape(t.(nodes := Credited(t.nodes, path, winner)))
    ensures NodeOk(u, t.(nodes := Credited(t.nodes, path, winner)), n, pend, off)
  {
    var b := Credited(t.nodes, path, winner);
    NodeAt(u, t, n, pend, off);
    NodeShapeAt(t, n);
    LinksStay(u, t, b, n);
    var last := |path| - 1;
    if n in path && n != path[last] {
      var i :| 0 <= i < |path| && path[i] == n;
      CreditOnPath(t, path, winner, i);
    } else {
      CreditOffPath(t, path, winner, n);
      if n == path[last] {
        PathIncreasing(t, path, 0, last);
      }
    }
  }

  lemma CreditKeepsRoot<S>(u: Rules<S>, t: Tree<S>, path: seq<nat>, winner: int, pend: int, off: int)
    requires TreeInv(u, t, pend, off) && PathOk(t, path) && FreshEnd(t, path)
    ensures Shape(t.(nodes := Credited(t.nodes, path, winner)))
    ensures RootOk(u, t.(nodes := Credited(t.nodes, path, winner)))
  {
    var b := Credited(t.nodes, path, winner);
    ShapeStays(t, b);
    CreditOnPath(t, path, winner, 0);
    assert StepOk(t, path, 1);
    var k :| 0 <= k < |t.nodes[0].children| && t.nodes[0].children[k] == path[1];
    NodeAt(u, t, 0, pend, off);
    assert LinkOk(u, t, 0, k);
    assert path[0] in path;
  }

  /** Crediting a path from the root to a fresh end keeps the invariant and counts one more run. */
  lemma CreditKeepsInv<S>(u: Rules<S>, t: Tree<S>, path: seq<nat>, winner: int, pend: int, off: int)
    requires TreeInv(u, t, pend, off) && PathOk(t, path) && FreshEnd(t, path)
    ensures TreeInv(u, t.(nodes := Credited(t.nodes, path, winner)), pend, off)
    ensures Credited(t.nodes, path, winner)[0].count == t.nodes[0].count + 1
  {
    var t' := t.(nodes := Credited(t.nodes, path, winner));
    CreditKeepsRoot(u, t, path, winner, pend, off);
    forall n | 0 <= n < |t'.nodes|
      ensures NodeOk(u, t', n, pend, off)
    {
      CreditKeepsNode(u, t, path, winner, pend, off, n);
    }
    assert path[0] in path;
  }

  // ---- Finding a finished child ----

  ghost function MarkedDone<S>(t: Tree<S>, c: nat): Tree<S>
    requires c < |t.nodes|
  {
    t.(nodes := t.nodes[c := t.nodes[c].(done := true)])
  }

  lemma MarkKeepsNode<S>(u: Rules<S>, t: Tree<S>, n: nat, k: nat, m: nat)
    requires TreeInv(u, t, n, 0) && n < |t.nodes| && k < |t.nodes[n].children| && m < |t.nodes|
    requires var c := t.nodes[n].children[k];
             c < |t.nodes| && t.nodes[c].children == [] && !t.nodes[c].done && !u.running(t.games[c])
    requires !t.nodes[n].done
    ensures Shape(MarkedDone(t, t.nodes[n].children[k]))
    ensures NodeOk(u, MarkedDone(t, t.nodes[n].children[k]), m, n, 1)
  {
    var c := t.nodes[n].children[k];
    var t' := MarkedDone(t, c);
    NodeAt(u, t, m, n, 0);
    NodeShapeAt(t, n);
    NodeShapeAt(t, m);
    LinksStay(u, t, t'.nodes, m);
    var cs := t.nodes[m].children;
    if m == n {
      LiveSpec(t.nodes, cs);
      SumsOne(t.nodes, t'.nodes, cs, k);
    } else {
      SumsFrame(t.nodes, t'.nodes, cs);
    }
  }

  /** A child whose state is finished is marked; its parent's counter lags by one. */
  lemma MarkKeepsInv<S>(u: Rules<S>, t: Tree<S>, n: nat, k: nat)
    requires TreeInv(u, t, n, 0) && n < |t.nodes| && k < |t.nodes[n].children|
    requires var c := t.nodes[n].children[k];
             c < |t.nodes| && t.nodes[c].children == [] && !t.nodes[c].done && !u.running(t.games[c])
    requires !t.nodes[n].done
    ensures TreeInv(u, MarkedDone(t, t.nodes[n].children[k]), n, 1)
  {
    var c := t.nodes[n].children[k];
    var t' := MarkedDone(t, c);
    ShapeStays(t, t'.nodes);
    NodeShapeAt(t, n);
    NodeShapeAt(t, 0);
    var cs := t.nodes[0].children;
    if n == 0 {
      SumsOne(t.nodes, t'.nodes, cs, k);
    } else {
      SumsFrame(t.nodes, t'.nodes, cs);
    }
    forall m | 0 <= m < |t'.nodes|
      ensures NodeOk(u, t', m, n, 1)
    {
      MarkKeepsNode(u, t, n, k, m);
    }
  }

  // ---- Settling the parent's counter ----

  /** One child fewer is live; with the last one the node itself is done. */
  function CountDown(n: Node): Node
  {
    n.(liveChildren := n.liveChildren - 1, done := n.done || n.liveChildren - 1 == 0)
  }

  ghost function SettledTree<S>(t: Tree<S>, n: nat): Tree<S>
    requires n < |t.nodes|
  {
    t.(nodes := t.nodes[n := CountDown(t.nodes[n])])
  }

  lemma SettleOther<S>(u: Rules<S>, t: Tree<S>, n: nat, m: nat)
    requires TreeInv(u, t, n, 1) && n < |t.nodes| && t.nodes[n].children != [] && m < |t.nodes|
    requires m != t.parent[n] && m != n
    ensures Shape(SettledTree(t, n))
    ensures NodeOk(u, SettledTree(t, n), m, t.parent[n], Lag(SettledTree(t, n).nodes[n]))
  {
    var t' := SettledTree(t, n);
    NodeAt(u, t, m, n, 1);
    NodeShapeAt(t, m);
    LinksStay(u, t, t'.nodes, m);
    SumsFrame(t.nodes, t'.nodes, t.nodes[m].children);
  }

  lemma SettleSelf<S>(u: Rules<S>, t: Tree<S>, n: nat)
    requires TreeInv(u, t, n, 1) && n < |t.nodes| && t.nodes[n].children != []
    ensures Shape(SettledTree(t, n))
    ensures NodeOk(u, SettledTree(t, n), n, t.parent[n], Lag(SettledTree(t, n).nodes[n]))
    ensures !t.nodes[n].done
  {
    var t' := SettledTree(t, n);
    NodeAt(u, t, n, n, 1);
    NodeShapeAt(t, n);
    LinksStay(u, t, t'.nodes, n);
    LiveSpec(t.nodes, t.nodes[n].children);
    SumsFrame(t.nodes, t'.nodes, t.nodes[n].children);
  }

  lemma SettleParent<S>(u: Rules<S>, t: Tree<S>, n: nat)
    requires TreeInv(u, t, n, 1) && 0 < n < |t.nodes| && t.nodes[n].children != []
    ensures Shape(SettledTree(t, n)) && 0 <= t.parent[n] < |t.nodes|
    ensures NodeOk(u, SettledTree(t, n), t.parent[n], t.parent[n], Lag(SettledTree(t, n).nodes[n]))
  {
    var t' := SettledTree(t, n);
    SettleSelf(u, t, n);
    NodeShapeAt(t, n);
    var p := t.parent[n];
    NodeAt(u, t, p, n, 1);
    NodeShapeAt(t, p);
    LinksStay(u, t, t'.nodes, p);
    var cs := t.nodes[p].children;
    var k :| 0 <= k < |cs| && cs[k] == n;
    SumsOne(t.nodes, t'.nodes, cs, k);
  }

  lemma SettleRoot<S>(u: Rules<S>, t: Tree<S>, n: nat)
    requires TreeInv(u, t, n, 1) && n < |t.nodes| && t.nodes[n].children != []
    ensures Shape(SettledTree(t, n)) && RootOk(u, SettledTree(t, n))
  {
    var t' := SettledTree(t, n);
    ShapeStays(t, t'.nodes);
    NodeShapeAt(t, 0);
    WinsFrame(t.nodes, t'.nodes, t.nodes[0].children);
  }

  lemma {:induction false} WinsFrame(a: seq<Node>, b: seq<Node>, cs: seq<nat>)
    requires Inside(a, cs) && Inside(b, cs)
    requires forall k :: 0 <= k < |cs| ==> a[cs[k]].wins == b[cs[k]].wins
    ensures SumWins(a, cs) == SumWins(b, cs)
  {
    if cs != [] {
      WinsFrame(a, b, cs[..|cs| - 1]);
    }
  }

  /** Settling the counter of n hands the lag on to the node above. */
  lemma SettleKeepsInv<S>(u: Rules<S>, t: Tree<S>, n: nat)
    requires TreeInv(u, t, n, 1) && n < |t.nodes| && t.nodes[n].children != []
    ensures TreeInv(u, SettledTree(t, n), t.parent[n], Lag(SettledTree(t, n).nodes[n]))
  {
    var t' := SettledTree(t, n);
    SettleRoot(u, t, n);
    forall m | 0 <= m < |t'.nodes|
      ensures NodeOk(u, t', m, t.parent[n], Lag(t'.nodes[n]))
    {
      if m == n {
        SettleSelf(u, t, n);
      } else if m == t.parent[n] {
        SettleParent(u, t, n);
      } else {
        SettleOther(u, t, n, m);
      }
    }
  }

  // ---- Expanding a node ----

  /** The children that nextMoves proposes for a state: unplayed, by the player to move, legal. */
  ghost predicate Proposal<S>(u: Rules<S>, s: S, x: Node)
  {
    x == Unplayed(x.r, x.c, u.turn(s), x.cellType) && u.legal(s, PlyOf(x)) && u.ok(u.next(s, PlyOf(x)))
  }

  ghost predicate Proposals<S>(u: Rules<S>, s: S, cs: seq<Node>)
  {
    forall k {:trigger Proposal(u, s, cs[k])} :: 0 <= k < |cs| ==> Proposal(u, s, cs[k])
  }

  function Fresh(first: nat, n: nat): (r: seq<nat>)
    ensures |r| == n && forall k :: 0 <= k < n ==> r[k] == first + k
    ensures Distinct(r)
  {
    seq(n, k requires 0 <= k < n => first + k)
  }

  ghost function NextGames<S>(u: Rules<S>, s: S, cs: seq<Node>): (r: seq<S>)
    ensures |r| == |cs|
    ensures forall k :: 0 <= k < |cs| ==> r[k] == u.next(s, PlyOf(cs[k]))
  {
    seq(|cs|, k requires 0 <= k < |cs| => u.next(s, PlyOf(cs[k])))
  }

  function ExpandedNodes(nodes: seq<Node>, n: nat, cs: seq<Node>): (r: seq<Node>)
    requires n < |nodes|
    ensures |r| == |nodes| + |cs|
  {
    nodes[n := nodes[n].(children := Fresh(|nodes|, |cs|), liveChildren := |cs|)] + cs
  }

  ghost function Expanded<S>(u: Rules<S>, t: Tree<S>, n: nat, cs: seq<Node>): Tree<S>
    requires |t.nodes| == |t.games| == |t.parent| && n < |t.nodes|
  {
    Tree(ExpandedNodes(t.nodes, n, cs), t.games + NextGames(u, t.games[n], cs), t.parent + seq(|cs|, _ => n))
  }

  ghost predicate Expandable<S>(u: Rules<S>, t: Tree<S>, n: nat, cs: seq<Node>)
  {
    && TreeInv(u, t, -1, 0)
    && n < |t.nodes| && t.nodes[n].children == [] && !t.nodes[n].done && u.running(t.games[n])
    && Proposals(u, t.games[n], cs) && cs != [] && |cs| <= u.most
  }

  lemma ExpandedShapeAt<S>(u: Rules<S>, t: Tree<S>, n: nat, cs: seq<Node>, m: nat)
    requires Expandable(u, t, n, cs) && m < |t.nodes| + |cs|
    ensures NodeShape(Expanded(u, t, n, cs), m)
  {
    var t' := Expanded(u, t, n, cs);
    if m < |t.nodes| && m != n {
      NodeShapeAt(t, m);
      forall k | 0 <= k < |t'.nodes[m].children|
        ensures ChildOk(t', m, k)
      {
        assert ChildOk(t, m, k);
      }
    } else if m == n {
      forall k | 0 <= k < |t'.nodes[m].children|
        ensures ChildOk(t', m, k)
      {
      }
      if n > 0 {
        NodeShapeAt(t, n);
      }
    } else {
      assert Proposal(u, t.games[n], cs[m - |t.nodes|]);
      assert t'.nodes[n].children[m - |t.nodes|] == m;
    }
  }

  lemma ExpandedShape<S>(u: Rules<S>, t: Tree<S>, n: nat, cs: seq<Node>)
    requires Expandable(u, t, n, cs)
    ensures Shape(Expanded(u, t, n, cs))
  {
    var t' := Expanded(u, t, n, cs);
    forall m | 0 <= m < |t'.nodes|
      ensures NodeShape(t', m)
    {
      ExpandedShapeAt(u, t, n, cs, m);
    }
  }

  lemma ExpandKeepsOld<S>(u: Rules<S>, t: Tree<S>, n: nat, cs: seq<Node>, m: nat)
    requires Expandable(u, t, n, cs) && m < |t.nodes| && m != n
    ensures Shape(Expanded(u, t, n, cs))
    ensures NodeOk(u, Expanded(u, t, n, cs), m, -1, 0)
  {
    var t' := Expanded(u, t, n, cs);
    NodeAt(u, t, m, -1, 0);
    ExpandedShape(u, t, n, cs);
    NodeShapeAt(t, m);
    forall k | 0 <= k < |t'.nodes[m].children|
      ensures LinkOk(u, t', m, k)
    {
      assert LinkOk(u, t, m, k);
    }
    SumsFrame(t.nodes, t'.nodes, t.nodes[m].children);
  }

  lemma ExpandedSums<S>(u: Rules<S>, t: Tree<S>, n: nat, cs: seq<Node>)
    requires Expandable(u, t, n, cs)
    ensures var t' := Expanded(u, t, n, cs);
            var kids := t'.nodes[n].children;
            && Inside(t'.nodes, kids) && |kids| == |cs|
            && SumCount(t'.nodes, kids) == 0 && SumWins(t'.nodes, kids) == 0.0 && Live(t'.nodes, kids) == |cs|
  {
    var t' := Expanded(u, t, n, cs);
    var kids := t'.nodes[n].children;
    forall k | 0 <= k < |kids|
      ensures t'.nodes[kids[k]] == cs[k] && cs[k] == Unplayed(cs[k].r, cs[k].c, u.turn(t.games[n]), cs[k].cellType)
    {
      ExpandedChild(u, t, n, cs, k);
    }
    SumsFresh(t'.nodes, kids);
  }

  lemma ExpandedChild<S>(u: Rules<S>, t: Tree<S>, n: nat, cs: seq<Node>, k: nat)
    requires Expandable(u, t, n, cs) && k < |cs|
    ensures var t' := Expanded(u, t, n, cs);
            var c := |t.nodes| + k;
            && |t'.nodes| == |t'.games| == |t.nodes| + |cs| && |t'.nodes[n].children| == |cs|
            && t'.nodes[n].children[k] == c && t'.nodes[c] == cs[k] && t'.games[n] == t.games[n]
            && u.legal(t.games[n], PlyOf(cs[k])) && t'.games[c] == u.next(t.games[n], PlyOf(cs[k])) && u.ok(t'.games[c])
            && cs[k] == Unplayed(cs[k].r, cs[k].c, u.turn(t.games[n]), cs[k].cellType)
  {
    assert Proposal(u, t.games[n], cs[k]);
  }

  lemma ExpandedLinks<S>(u: Rules<S>, t: Tree<S>, n: nat, cs: seq<Node>)
    requires Expandable(u, t, n, cs)
    ensures Shape(Expanded(u, t, n, cs))
    ensures LinksOk(u, Expanded(u, t, n, cs), n)
  {
    var t' := Expanded(u, t, n, cs);
    NodeAt(u, t, n, -1, 0);
    ExpandedShape(u, t, n, cs);
    forall k | 0 <= k < |t'.nodes[n].children|
      ensures LinkOk(u, t', n, k)
    {
      ExpandedChild(u, t, n, cs, k);
    }
  }

  lemma ExpandKeepsSelf<S>(u: Rules<S>, t: Tree<S>, n: nat, cs: seq<Node>)
    requires Expandable(u, t, n, cs)
    ensures Shape(Expanded(u, t, n, cs))
    ensures NodeOk(u, Expanded(u, t, n, cs), n, -1, 0)
  {
    NodeAt(u, t, n, -1, 0);
    ExpandedLinks(u, t, n, cs);
    ExpandedSums(u, t, n, cs);
  }

  lemma ExpandKeepsNew<S>(u: Rules<S>, t: Tree<S>, n: nat, cs: seq<Node>, k: nat)
    requires Expandable(u, t, n, cs) && k < |cs|
    ensures Shape(Expanded(u, t, n, cs))
    ensures NodeOk(u, Expanded(u, t, n, cs), |t.nodes| + k, -1, 0)
  {
    var t' := Expanded(u, t, n, cs);
    NodeAt(u, t, n, -1, 0);
    ExpandedShape(u, t, n, cs);
    ExpandedChild(u, t, n, cs, k);
  }

  /** Adding legal, unplayed children to a running leaf keeps the invariant. */
  lemma ExpandKeepsInv<S>(u: Rules<S>, t: Tree<S>, n: nat, cs: seq<Node>)
    requires Expandable(u, t, n, cs)
    ensures TreeInv(u, Expanded(u, t, n, cs), -1, 0)
  {
    var t' := Expanded(u, t, n, cs);
    ExpandedShape(u, t, n, cs);
    ExpandedSums(u, t, n, cs);
    NodeAt(u, t, 0, -1, 0);
    NodeShapeAt(t, 0);
    NodeShapeAt(t', 0);
    if n != 0 {
      SumsFrame(t.nodes, t'.nodes, t.nodes[0].children);
    }
    forall m | 0 <= m < |t'.nodes|
      ensures NodeOk(u, t', m, -1, 0)
    {
      if m == n {
        ExpandKeepsSelf(u, t, n, cs);
      } else if m < |t.nodes| {
        ExpandKeepsOld(u, t, n, cs, m);
      } else {
        ExpandKeepsNew(u, t, n, cs, m - |t.nodes|);
      }
    }
  }

  // ---- What the invariant means for users of the tree ----

  /** Playing the moves of path[1..n] one after the other. */
  function Replay<S>(u: Rules<S>, t: Tree<S>, path: seq<nat>, n: nat): S
    requires |t.games| > 0 && n < |path| && Inside(t.nodes, path)
  {
    if n == 0 then t.games[0] else u.next(Replay(u, t, path, n - 1), PlyOf(t.nodes[path[n]]))
  }

  /** Replaying a stored path never fails: every move on it is legal, by the player whose turn it is,
      in the state reached so far, and the replay ends in the state kept at the node. */
  lemma {:induction false} ReplayReaches<S>(u: Rules<S>, t: Tree<S>, path: seq<nat>, pend: int, off: int, n: nat)
    requires TreeInv(u, t, pend, off) && PathOk(t, path) && n < |path|
    ensures Replay(u, t, path, n) == t.games[path[n]]
    ensures n > 0 ==> && u.running(Replay(u, t, path, n - 1))
                      && u.legal(Replay(u, t, path, n - 1), PlyOf(t.nodes[path[n]]))
                      && t.nodes[path[n]].turn == u.turn(Replay(u, t, path, n - 1))
  {
    if n > 0 {
      ReplayReaches(u, t, path, pend, off, n - 1);
      var p := path[n - 1];
      assert StepOk(t, path, n);
      var k :| 0 <= k < |t.nodes[p].children| && t.nodes[p].children[k] == path[n];
      NodeAt(u, t, p, pend, off);
      assert LinkOk(u, t, p, k);
    }
  }

  /** A chain of children below n. */
  ghost predicate Descends<S>(t: Tree<S>, n: nat, walk: seq<nat>)
  {
    && |walk| >= 1 && walk[0] == n && Inside(t.nodes, walk)
    && forall i :: 0 < i < |walk| ==> walk[i] in t.nodes[walk[i - 1]].children
  }

  /** Every leaf below a done node is a finished game. */
  lemma {:induction false} DoneLeavesAreFinished<S>(u: Rules<S>, t: Tree<S>, n: nat, walk: seq<nat>)
    requires TreeInv(u, t, -1, 0) && n < |t.nodes| && t.nodes[n].done && Descends(t, n, walk)
    ensures t.nodes[walk[|walk| - 1]].done
    ensures t.nodes[walk[|walk| - 1]].children == [] ==> !u.running(t.games[walk[|walk| - 1]])
    decreases |walk|
  {
    NodeAt(u, t, n, -1, 0);
    NodeShapeAt(t, n);
    if |walk| > 1 {
      LiveSpec(t.nodes, t.nodes[n].children);
      assert walk[1] in t.nodes[walk[0]].children;
      forall i | 0 < i < |walk[1..]|
        ensures walk[1..][i] in t.nodes[walk[1..][i - 1]].children
      {
        assert walk[i + 1] in t.nodes[walk[i]].children;
      }
      DoneLeavesAreFinished(u, t, walk[1], walk[1..]);
    }
  }

  /** Counters between runs: the root's are the sums over its children, an inner node's count is its
      children's sum or one more, and wins lie between zero and count. */
  lemma Accounting<S>(u: Rules<S>, t: Tree<S>, n: nat)
    requires TreeInv(u, t, -1, 0) && n < |t.nodes|
    ensures Inside(t.nodes, t.nodes[n].children) && Inside(t.nodes, t.nodes[0].children)
    ensures t.nodes[0].count == SumCount(t.nodes, t.nodes[0].children)
    ensures t.nodes[0].wins == SumWins(t.nodes, t.nodes[0].children)
    ensures t.nodes[n].children != [] ==>
              SumCount(t.nodes, t.nodes[n].children) <= t.nodes[n].count <= SumCount(t.nodes, t.nodes[n].children) + 1
    ensures 0.0 <= t.nodes[n].wins <= t.nodes[n].count as real
    ensures t.nodes[n].children != [] ==> t.nodes[n].liveChildren == Live(t.nodes, t.nodes[n].children)
  {
    NodeAt(u, t, n, -1, 0);
    NodeAt(u, t, 0, -1, 0);
    NodeShapeAt(t, n);
    NodeShapeAt(t, 0);
  }

  // ---- How a run changes the tree as a whole ----

  /** b is a with more nodes, and with children given to leaves; no count went down. */
  ghost predicate Extends<S>(a: Tree<S>, b: Tree<S>)
  {
    && |a.nodes| <= |b.nodes| && a.games <= b.games && a.parent <= b.parent
    && forall n {:trigger Kept(a, b, n)} :: 0 <= n < |a.nodes| ==> Kept(a, b, n)
  }

  ghost predicate Kept<S>(a: Tree<S>, b: Tree<S>, n: nat)
    requires n < |a.nodes| <= |b.nodes|
  {
    && PlyOf(a.nodes[n]) == PlyOf(b.nodes[n])
    && (a.nodes[n].children != [] ==> a.nodes[n].children == b.nodes[n].children)
    && a.nodes[n].count <= b.nodes[n].count
  }

  lemma ExtendsTransitive<S>(a: Tree<S>, b: Tree<S>, c: Tree<S>)
    requires Extends(a, b) && Extends(b, c)
    ensures Extends(a, c)
  {
    forall n | 0 <= n < |a.nodes|
      ensures Kept(a, c, n)
    {
      assert Kept(a, b, n) && Kept(b, c, n);
    }
  }

  lemma UpdateExtends<S>(t: Tree<S>, nodes: seq<Node>)
    requires SameMoves(t.nodes, nodes) && forall n :: 0 <= n < |nodes| ==> t.nodes[n].count <= nodes[n].count
    ensures Extends(t, t.(nodes := nodes))
  {
    forall n | 0 <= n < |nodes|
      ensures Kept(t, t.(nodes := nodes), n)
    {
      assert SameMove(t.nodes[n], nodes[n]);
    }
  }

  lemma SettleExtends<S>(t: Tree<S>, n: nat)
    requires n < |t.nodes|
    ensures Extends(t, SettledTree(t, n)) && SettledTree(t, n).nodes[0].count == t.nodes[0].count
  {
    UpdateExtends(t, SettledTree(t, n).nodes);
  }

  lemma ExpandExtends<S>(u: Rules<S>, t: Tree<S>, n: nat, cs: seq<Node>)
    requires Expandable(u, t, n, cs)
    ensures Extends(t, Expanded(u, t, n, cs))
  {
    forall m | 0 <= m < |t.nodes|
      ensures Kept(t, Expanded(u, t, n, cs), m)
    {
    }
  }

  lemma PathExtends<S>(a: Tree<S>, b: Tree<S>, path: seq<nat>)
    requires PathOk(a, path) && Extends(a, b) && Shape(b)
    ensures PathOk(b, path)
  {
    forall i | 0 <= i < |path|
      ensures StepOk(b, path, i)
    {
      assert StepOk(a, path, i);
      if i > 0 {
        assert Kept(a, b, path[i - 1]);
      }
    }
  }

  lemma PathDistinct<S>(t: Tree<S>, path: seq<nat>)
    requires PathOk(t, path)
    ensures HexBoard.Distinct(path)
  {
    forall i, j | 0 <= i < j < |path|
      ensures path[i] != path[j]
    {
      PathIncreasing(t, path, i, j);
    }
  }

  // ---- Who is credited by a run ----

  /** Between a and b, node n was credited if it is on the path: one run, and a win if its move was made by the
      winner, half a win for a draw; new nodes start at zero. */
  predicate TalliedAt(a: seq<Node>, b: seq<Node>, path: seq<nat>, winner: int, n: nat)
    requires n < |b|
  {
    var count, wins := if n < |a| then a[n].count else 0, if n < |a| then a[n].wins else 0.0;
    && (n < |a| ==> b[n].turn == a[n].turn)
    && b[n].count == count + (if n in path then 1 else 0)
    && b[n].wins == wins + (if n !in path then 0.0 else if b[n].turn == winner then 1.0 else if winner == 0 then 0.5
                            else 0.0)
  }

  ghost predicate Tallied(a: seq<Node>, b: seq<Node>, path: seq<nat>, winner: int)
  {
    && |a| <= |b|
    && forall n {:trigger TalliedAt(a, b, path, winner, n)} :: 0 <= n < |b| ==> TalliedAt(a, b, path, winner, n)
  }

  lemma CreditTallies(nodes: seq<Node>, path: seq<nat>, winner: int)
    ensures Tallied(nodes, Credited(nodes, path, winner), path, winner)
  {
  }

  lemma ExpandTallies(nodes: seq<Node>, n: nat, cs: seq<Node>)
    requires n < |nodes| && forall k :: 0 <= k < |cs| ==> cs[k].count == 0 && cs[k].wins == 0.0
    ensures Tallied(nodes, ExpandedNodes(nodes, n, cs), [], 0)
  {
  }

  /** Writing the flags of a node credits nobody. */
  lemma FlagsTally(nodes: seq<Node>, n: nat, x: Node)
    requires n < |nodes| && x.turn == nodes[n].turn && x.count == nodes[n].count && x.wins == nodes[n].wins
    ensures Tallied(nodes, nodes[n := x], [], 0)
  {
  }

  lemma TallyLater(a: seq<Node>, b: seq<Node>, c: seq<Node>, path: seq<nat>, winner: int)
    requires Tallied(a, b, [], 0) && Tallied(b, c, path, winner)
    ensures Tallied(a, c, path, winner)
  {
    forall n | 0 <= n < |c|
      ensures TalliedAt(a, c, path, winner, n)
    {
      assert TalliedAt(b, c, path, winner, n);
      assert n < |b| ==> TalliedAt(a, b, [], 0, n);
    }
  }

  lemma TallyEarlier(a: seq<Node>, b: seq<Node>, c: seq<Node>, path: seq<nat>, winner: int)
    requires Tallied(a, b, path, winner) && Tallied(b, c, [], 0) && Inside(b, path)
    ensures Tallied(a, c, path, winner)
  {
    forall n | 0 <= n < |c|
      ensures TalliedAt(a, c, path, winner, n)
    {
      assert TalliedAt(b, c, [], 0, n);
      assert n < |b| ==> TalliedAt(a, b, path, winner, n);
    }
  }

  /** A node with a child that is not done is not done. */
  lemma LiveChildKeepsOpen<S>(u: Rules<S>, t: Tree<S>, n: nat, c: nat, pend: int)
    requires TreeInv(u, t, pend, 0) && n < |t.nodes| && c in t.nodes[n].children && c < |t.nodes| && !t.nodes[c].done
    ensures !t.nodes[n].done
  {
    NodeAt(u, t, n, pend, 0);
    NodeShapeAt(t, n);
    LiveSpec(t.nodes, t.nodes[n].children);
  }

  lemma OpenNodeHasLiveChild<S>(u: Rules<S>, t: Tree<S>, n: nat)
    requires TreeInv(u, t, -1, 0) && n < |t.nodes| && t.nodes[n].children != [] && !t.nodes[n].done
    ensures Inside(t.nodes, t.nodes[n].children)
    ensures exists k :: 0 <= k < |t.nodes[n].children| && !t.nodes[t.nodes[n].children[k]].done
  {
    NodeAt(u, t, n, -1, 0);
    NodeShapeAt(t, n);
    LiveSpec(t.nodes, t.nodes[n].children);
  }

  /** What is known about the stored child c of n. */
  lemma ChildFacts<S>(u: Rules<S>, t: Tree<S>, n: nat, c: nat)
    requires TreeInv(u, t, -1, 0) && n < |t.nodes| && c in t.nodes[n].children
    ensures n < c < |t.nodes| && t.parent[c] == n
    ensures u.legal(t.games[n], PlyOf(t.nodes[c])) && t.games[c] == u.next(t.games[n], PlyOf(t.nodes[c]))
    ensures !u.running(t.games[c]) ==> t.nodes[c].children == []
  {
    NodeAt(u, t, n, -1, 0);
    NodeShapeAt(t, n);
    var k :| 0 <= k < |t.nodes[n].children| && t.nodes[n].children[k] == c;
    assert LinkOk(u, t, n, k);
    NodeAt(u, t, c, -1, 0);
  }

  lemma RootAlone<S>(u: Rules<S>, root: Node, s: S)
    requires root == Unplayed(root.r, root.c, u.turn(s), root.cellType) && u.ok(s) && u.running(s)
    ensures TreeInv(u, Tree([root], [s], [-1]), -1, 0) && PathOk(Tree([root], [s], [-1]), [0])
  {
    var t := Tree([root], [s], [-1]);
    assert NodeShape(t, 0);
    assert Shape(t);
    assert NodeOk(u, t, 0, -1, 0);
  }

  lemma PathPrefix<S>(t: Tree<S>, path: seq<nat>, c: nat)
    requires PathOk(t, path + [c]) && |path| >= 1
    ensures PathOk(t, path) && c < |t.nodes| && c in t.nodes[path[|path| - 1]].children
    ensures t.parent[c] == path[|path| - 1]
  {
    var p' := path + [c];
    assert forall i :: 0 <= i < |path| ==> path[i] == p'[i];
    assert StepOk(t, p', |path|);
    PathParent(t, p', |path|);
    forall i | 0 <= i < |path|
      ensures StepOk(t, path, i)
    {
      assert StepOk(t, p', i);
    }
  }

  // ---- Counting nodes with a stack ----

  /** Popped nodes and waiting nodes do not overlap; a node other than the root has been seen
      exactly when its parent has been popped. */
  ghost predicate Frontier<S>(t: Tree<S>, popped: set<nat>, q: seq<nat>)
    requires Shape(t)
  {
    && HexBoard.Distinct(q) && Inside(t.nodes, q)
    && (forall n :: n in popped ==> n < |t.nodes| && n !in q)
    && (0 in popped || 0 in q)
    && (forall n {:trigger t.parent[n]} :: 0 < n < |t.nodes| ==> (n in popped || n in q <==> t.parent[n] in popped))
  }

  lemma PopStep<S>(t: Tree<S>, popped: set<nat>, q: seq<nat>, n: nat)
    requires Shape(t) && n < |t.nodes| && Frontier(t, popped, q + [n])
    ensures Inside(t.nodes, t.nodes[n].children)
    ensures n !in popped && Frontier(t, popped + {n}, q + t.nodes[n].children)
    ensures |popped + {n}| == |popped| + 1 <= |t.nodes|
  {
    NodeShapeAt(t, n);
    var cs := t.nodes[n].children;
    assert (q + [n])[|q|] == n;
    assert forall m :: m in q + [n] <==> m in q || m == n;
    assert forall m :: m in q + cs <==> m in q || m in cs;
    BoundedSet(popped + {n}, |t.nodes|);
    forall m | m in cs
      ensures 0 < m < |t.nodes| && t.parent[m] == n && m !in popped && m !in q && m != n
    {
      var i :| 0 <= i < |cs| && cs[i] == m;
      assert t.parent[cs[i]] == n;
    }
    PopDistinct(q, cs, n);
    forall m | m in q
      ensures m < |t.nodes|
    {
      var i :| 0 <= i < |q| && q[i] == m;
      assert (q + [n])[i] == m;
    }
    forall i | 0 <= i < |q + cs|
      ensures (q + cs)[i] < |t.nodes|
    {
      assert (q + cs)[i] in q + cs;
    }
    forall m | 0 < m < |t.nodes|
      ensures m in popped + {n} || m in q + cs <==> t.parent[m] in popped + {n}
    {
      NodeShapeAt(t, m);
    }
  }

  lemma PopDistinct(q: seq<nat>, cs: seq<nat>, n: nat)
    requires HexBoard.Distinct(q + [n]) && HexBoard.Distinct(cs)
    requires forall m :: m in cs ==> m !in q
    ensures HexBoard.Distinct(q + cs) && n !in q
  {
    var all, old' := q + cs, q + [n];
    assert forall i :: 0 <= i < |q| ==> old'[i] == q[i] && all[i] == q[i] && q[i] in q;
    assert old'[|q|] == n;
    forall i, j | 0 <= i < j < |all|
      ensures all[i] != all[j]
    {
      if j < |q| {
        assert old'[i] != old'[j];
      } else {
        assert all[j] == cs[j - |q|] && all[j] in cs;
        if i >= |q| {
          assert all[i] == cs[i - |q|];
        }
      }
    }
  }

  lemma {:induction false} SeenBelow<S>(t: Tree<S>, popped: set<nat>, n: nat)
    requires Shape(t) && Frontier(t, popped, []) && n < |t.nodes|
    ensures n in popped
  {
    if n > 0 {
      NodeShapeAt(t, n);
      SeenBelow(t, popped, t.parent[n]);
    }
  }

  lemma AllPopped<S>(t: Tree<S>, popped: set<nat>)
    requires Shape(t) && Frontier(t, popped, [])
    ensures |popped| == |t.nodes|
  {
    forall n: nat | n < |t.nodes|
      ensures n in popped
    {
      SeenBelow(t, popped, n);
    }
    AllBelow(popped, |t.nodes|);
  }
}
