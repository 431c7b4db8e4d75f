/**
 How long a search can go on: the number of runs is bounded by the number of nodes, and the number of nodes by the
 game, so a search that is given the time explores its tree completely.
 */
module MctsBounds {
  import opened MctsTree
  import opened MctsSteps
  import opened Sets

  lemma {:induction false} SumCountConcat(nodes: seq<Node>, a: seq<nat>, b: seq<nat>)
    requires Inside(nodes, a) && Inside(nodes, b)
    ensures SumCount(nodes, a + b) == SumCount(nodes, a) + SumCount(nodes, b)
  {
    if b == [] {
      assert a + b == a;
    } else {
      SumCountConcat(nodes, a, b[..|b| - 1]);
      assert (a + b)[..|a + b| - 1] == a + b[..|b| - 1];
    }
  }

  /** A node's count exceeds that of its children by at most two, the root's not at all. */
  lemma CountStep<S>(u: Rules<S>, t: Tree<S>, n: nat)
    requires TreeInv(u, t, -1, 0) && n < |t.nodes|
    ensures Inside(t.nodes, t.nodes[n].children)
    ensures t.nodes[n].count <= SumCount(t.nodes, t.nodes[n].children) + if n == 0 then 0 else 2
  {
    NodeAt(u, t, n, -1, 0);
    NodeShapeAt(t, n);
  }

  /** Runs that are not accounted for by popped nodes are credits of the nodes that wait. */
  lemma {:induction false} RunsFrom<S>(u: Rules<S>, t: Tree<S>, popped: set<nat>, q: seq<nat>)
    requires TreeInv(u, t, -1, 0) && Frontier(t, popped, q) && 0 in popped && |popped| <= |t.nodes|
    requires t.nodes[0].count <= 2 * (|popped| - 1) + SumCount(t.nodes, q)
    ensures t.nodes[0].count <= 2 * (|t.nodes| - 1)
    decreases |t.nodes| - |popped|, |q|
  {
    if q == [] {
      AllPopped(t, popped);
    } else {
      var init, n := q[..|q| - 1], q[|q| - 1];
      assert q == init + [n];
      PopStep(t, popped, init, n);
      CountStep(u, t, n);
      SumCountConcat(t.nodes, init, t.nodes[n].children);
      RunsFrom(u, t, popped + {n}, init + t.nodes[n].children);
    }
  }

  lemma StartAtRoot<S>(t: Tree<S>)
    requires Shape(t)
    ensures Frontier(t, {}, [0])
  {
  }

  /** There are at most two runs for every node but the root. */
  lemma RunsAtMostTwice<S>(u: Rules<S>, t: Tree<S>)
    requires TreeInv(u, t, -1, 0)
    ensures t.nodes[0].count <= 2 * (|t.nodes| - 1)
  {
    StartAtRoot(t);
    assert [] + [0] == [0];
    PopStep(t, {}, [], 0);
    assert [] + t.nodes[0].children == t.nodes[0].children && {} + {0} == {0};
    CountStep(u, t, 0);
    RunsFrom(u, t, {0}, t.nodes[0].children);
  }

  // ---- The size of the tree ----

  /** The size of a full tree with `most` children at every inner node and depth r. */
  function FullSize(most: nat, r: nat): (size: nat)
    ensures size >= 1
  {
    if r == 0 then 1 else 1 + most * FullSize(most, r - 1)
  }

  lemma MulNext(a: nat, x: nat)
    ensures (a + 1) * x == a * x + x
  {
  }

  lemma MulMonotone(a: nat, b: nat, x: nat)
    requires a <= b
    ensures a * x <= b * x
  {
  }

  lemma {:induction false} FullSizeMonotone(most: nat, r: nat, r': nat)
    requires r <= r' && most >= 1
    ensures FullSize(most, r) <= FullSize(most, r')
  {
    if r < r' {
      FullSizeMonotone(most, r, r' - 1);
      MulMonotone(1, most, FullSize(most, r' - 1));
    }
  }

  /** What the subtrees of these nodes can have at most. */
  function SumSizes(most: nat, rank: seq<nat>, q: seq<nat>): nat
    requires forall k :: 0 <= k < |q| ==> q[k] < |rank|
  {
    if q == [] then 0 else SumSizes(most, rank, q[..|q| - 1]) + FullSize(most, rank[q[|q| - 1]])
  }

  lemma {:induction false} SumSizesConcat(most: nat, rank: seq<nat>, a: seq<nat>, b: seq<nat>)
    requires forall k :: 0 <= k < |a| ==> a[k] < |rank|
    requires forall k :: 0 <= k < |b| ==> b[k] < |rank|
    ensures SumSizes(most, rank, a + b) == SumSizes(most, rank, a) + SumSizes(most, rank, b)
  {
    if b == [] {
      assert a + b == a;
    } else {
      SumSizesConcat(most, rank, a, b[..|b| - 1]);
      assert (a + b)[..|a + b| - 1] == a + b[..|b| - 1];
    }
  }

  lemma {:induction false} ChildrenSizes(most: nat, rank: seq<nat>, cs: seq<nat>, r: nat)
    requires most >= 1 && forall k :: 0 <= k < |cs| ==> cs[k] < |rank| && rank[cs[k]] <= r
    ensures SumSizes(most, rank, cs) <= |cs| * FullSize(most, r)
  {
    if cs != [] {
      var n, size := |cs| - 1, FullSize(most, r);
      ChildrenSizes(most, rank, cs[..n], r);
      FullSizeMonotone(most, rank[cs[n]], r);
      MulNext(n, size);
    }
  }

  /** Every child has a smaller rank than its parent. */
  ghost predicate Ranked<S>(t: Tree<S>, rank: seq<nat>)
    requires Shape(t)
  {
    |rank| == |t.nodes| && forall c {:trigger t.parent[c]} :: 0 < c < |t.nodes| ==> RankedAt(t, rank, c)
  }

  ghost predicate RankedAt<S>(t: Tree<S>, rank: seq<nat>, c: nat)
    requires Shape(t) && |rank| == |t.nodes| && 0 < c < |t.nodes|
  {
    NodeShapeAt(t, c);
    rank[c] < rank[t.parent[c]]
  }

  lemma SizeStep<S>(u: Rules<S>, t: Tree<S>, rank: seq<nat>, n: nat)
    requires TreeInv(u, t, -1, 0) && Ranked(t, rank) && n < |t.nodes| && u.most >= 1
    ensures Inside(t.nodes, t.nodes[n].children)
    ensures 1 + SumSizes(u.most, rank, t.nodes[n].children) <= FullSize(u.most, rank[n])
  {
    NodeAt(u, t, n, -1, 0);
    NodeShapeAt(t, n);
    var cs := t.nodes[n].children;
    if cs != [] {
      forall k | 0 <= k < |cs|
        ensures rank[cs[k]] < rank[n]
      {
        assert RankedAt(t, rank, cs[k]);
      }
      ChildrenSizes(u.most, rank, cs, rank[n] - 1);
      MulMonotone(|cs|, u.most, FullSize(u.most, rank[n] - 1));
    }
  }

  lemma {:induction false} NodesFrom<S>(u: Rules<S>, t: Tree<S>, rank: seq<nat>, popped: set<nat>, q: seq<nat>)
    requires TreeInv(u, t, -1, 0) && Ranked(t, rank) && u.most >= 1
    requires Frontier(t, popped, q) && |popped| <= |t.nodes|
    ensures |t.nodes| <= |popped| + SumSizes(u.most, rank, q)
    decreases |t.nodes| - |popped|, |q|
  {
    if q == [] {
      AllPopped(t, popped);
    } else {
      var init, n := q[..|q| - 1], q[|q| - 1];
      assert q == init + [n];
      PopStep(t, popped, init, n);
      SizeStep(u, t, rank, n);
      SumSizesConcat(u.most, rank, init, t.nodes[n].children);
      NodesFrom(u, t, rank, popped + {n}, init + t.nodes[n].children);
    }
  }

  /** If ranks fall along every edge, the tree is no larger than a full tree of the root's rank. */
  lemma NodesBounded<S>(u: Rules<S>, t: Tree<S>, rank: seq<nat>)
    requires TreeInv(u, t, -1, 0) && Ranked(t, rank) && u.most >= 1
    ensures |t.nodes| <= FullSize(u.most, rank[0])
  {
    StartAtRoot(t);
    NodesFrom(u, t, rank, {}, [0]);
    assert [0][..0] == [];
  }
}
