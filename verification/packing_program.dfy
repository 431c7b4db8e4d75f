/**
 The program of binz/binz.py over mutable nodes, proved against first fit on values: expansion of the
 processes, the stable sort by memory, and the packing loops.
 */
module PackingProgram {
  import opened BinPacking

  class Node {
    const id: nat
    const capacity: Capacity
    var cpuRemaining: real
    var memRemaining: real
    var pods: Bin
    var hostedProcesses: set<string>

    ghost predicate Valid()
      reads this
    {
      && cpuRemaining == capacity.cpu - Cpu(pods) && memRemaining == capacity.mem - Mem(pods)
      && hostedProcesses == Names(pods)
    }

    constructor (id: nat, capacity: Capacity)
      ensures Valid() && this.id == id && this.capacity == capacity && pods == []
    {
      this.id, this.capacity := id, capacity;
      cpuRemaining, memRemaining := capacity.cpu, capacity.mem;
      pods, hostedProcesses := [], {};
    }

    predicate CanFit(pod: Pod)
      reads this
      requires Valid()
      ensures CanFit(pod) <==> Fits(capacity, pods, pod)
    ensures CanFit(pod) <==>
              Cpu(pods) + pod.cpu <= capacity.cpu && Mem(pods) + pod.memory <= capacity.mem && pod.name !in Names(pods)
    {
      cpuRemaining >= pod.cpu && memRemaining >= pod.memory && pod.name !in hostedProcesses
    }

    /** add_pod; `ok` is false where the program raises ValueError. */
    method AddPod(pod: Pod) returns (ok: bool)
      requires Valid()
      modifies this
      ensures Valid() && ok == Fits(capacity, old(pods), pod)
      ensures pods == if ok then old(pods) + [pod] else old(pods)
    {
      if !CanFit(pod) {
        return false;
      }
      SumsAdd(capacity, pods, pod);
      pods := pods + [pod];
      cpuRemaining := cpuRemaining - pod.cpu;
      memRemaining := memRemaining - pod.memory;
      hostedProcesses := hostedProcesses + {pod.name};
      ok := true;
    }
  }

  /** The nodes are separate objects, numbered from 1, with these pods. */
  ghost predicate Represents(nodes: seq<Node>, c: Capacity, bins: seq<Bin>)
    reads nodes
  {
    && |nodes| == |bins|
    && (forall i, j :: 0 <= i < j < |nodes| ==> nodes[i] != nodes[j])
    && (forall i :: 0 <= i < |nodes| ==> nodes[i].Valid() && nodes[i].capacity == c && nodes[i].pods == bins[i])
    && (forall i :: 0 <= i < |nodes| ==> nodes[i].id == i + 1)
  }

  // Step 1: expansion.

  function Instances(p: Process, n: nat): seq<Pod>
  {
    if n == 0 then [] else Instances(p, n - 1) + [Pod(p.name, n, p.memory, p.cpu)]
  }

  function Expand(ps: seq<Process>): seq<Pod>
  {
    if ps == [] then []
    else
      var p := ps[|ps| - 1];
      Expand(ps[..|ps| - 1]) + Instances(p, if p.instances < 0 then 0 else p.instances)
  }

  /** Instances of the first n processes; a negative number counts as none. */
  function InstancesBefore(ps: seq<Process>, n: nat): nat
    requires n <= |ps|
  {
    if n == 0 then 0
    else InstancesBefore(ps, n - 1) + if ps[n - 1].instances > 0 then ps[n - 1].instances else 0
  }

  lemma {:induction false} InstanceAt(p: Process, n: nat, j: nat)
    requires j < n
    ensures |Instances(p, n)| == n && Instances(p, n)[j] == Pod(p.name, j + 1, p.memory, p.cpu)
  {
    if j < n - 1 {
      InstanceAt(p, n - 1, j);
    } else if n > 1 {
      InstanceAt(p, n - 1, 0);
    }
  }

  lemma {:induction false} BeforePrefix(ps: seq<Process>, k: nat, n: nat)
    requires n <= k <= |ps|
    ensures InstancesBefore(ps[..k], n) == InstancesBefore(ps, n)
  {
    if n > 0 {
      BeforePrefix(ps, k, n - 1);
    }
  }

  lemma {:induction false} ExpandSize(ps: seq<Process>)
    ensures |Expand(ps)| == InstancesBefore(ps, |ps|)
    decreases |ps|
  {
    if ps != [] {
      var k := |ps| - 1;
      ExpandSize(ps[..k]);
      BeforePrefix(ps, k, k);
      if ps[k].instances > 0 {
        InstanceAt(ps[k], ps[k].instances, 0);
      }
    }
  }

  /** The j-th instance of process i comes after all instances of the processes before it, numbered from 1. */
  lemma {:induction false} ExpandAt(ps: seq<Process>, i: nat, j: nat)
    requires i < |ps| && j < ps[i].instances
    ensures InstancesBefore(ps, i) + j < |Expand(ps)| == InstancesBefore(ps, |ps|)
    ensures Expand(ps)[InstancesBefore(ps, i) + j] == Pod(ps[i].name, j + 1, ps[i].memory, ps[i].cpu)
    decreases |ps|
  {
    var k := |ps| - 1;
    ExpandSize(ps);
    ExpandSize(ps[..k]);
    BeforePrefix(ps, k, i);
    BeforePrefix(ps, k, k);
    if i < k {
      ExpandAt(ps[..k], i, j);
      assert Expand(ps)[..|Expand(ps[..k])|] == Expand(ps[..k]);
    } else {
      InstanceAt(ps[k], ps[k].instances, j);
    }
  }

  method ExpandProcesses(ps: seq<Process>) returns (pods: seq<Pod>)
    ensures pods == Expand(ps)
  {
    pods := [];
    for i := 0 to |ps|
      invariant pods == Expand(ps[..i])
    {
      assert ps[..i + 1][..i] == ps[..i];
      ghost var before := pods;
      var j := 0;
      while j < ps[i].instances
        invariant 0 <= j && (ps[i].instances >= 0 ==> j <= ps[i].instances) && (ps[i].instances < 0 ==> j == 0)
        invariant pods == before + Instances(ps[i], j)
        decreases ps[i].instances - j
      {
        pods := pods + [Pod(ps[i].name, j + 1, ps[i].memory, ps[i].cpu)];
        j := j + 1;
      }
    }
    assert ps[..|ps|] == ps;
  }

  // Step 2: sorting.

  predicate SortedByMemory(pods: seq<Pod>)
  {
    forall i, j :: 0 <= i < j < |pods| ==> pods[i].memory >= pods[j].memory
  }

  /** The pods of one size of memory, in their order. */
  function OfMemory(pods: seq<Pod>, memory: real): seq<Pod>
  {
    if pods == [] then []
    else OfMemory(pods[..|pods| - 1], memory) + if pods[|pods| - 1].memory == memory then [pods[|pods| - 1]] else []
  }

  /** r is what a stable sort makes of the pods. */
  ghost predicate SortedStably(pods: seq<Pod>, r: seq<Pod>)
  {
    SortedByMemory(r) && multiset(r) == multiset(pods) && forall memory :: SameOrder(pods, r, memory)
  }

  /** Both lists have the same pods of this memory, in the same order. */
  predicate SameOrder(pods: seq<Pod>, r: seq<Pod>, memory: real)
  {
    OfMemory(pods, memory) == OfMemory(r, memory)
  }

  /** list.sort(key=memory, reverse=True): descending, and pods of equal memory keep their order. */
  method SortByMemory(pods: seq<Pod>) returns (r: seq<Pod>)
    ensures SortedStably(pods, r)
  {
    r := [];
    for i := 0 to |pods|
      invariant SortedStably(pods[..i], r)
    {
      ghost var before := r;
      r := InsertByMemory(r, pods[i]);
      InsertingIsStable(pods[..i], pods[i], before, r);
      assert pods[..i] + [pods[i]] == pods[..i + 1];
    }
    assert pods[..|pods|] == pods;
  }

  lemma OfMemoryAppend(pods: seq<Pod>, p: Pod, memory: real)
    ensures OfMemory(pods + [p], memory) == OfMemory(pods, memory) + if p.memory == memory then [p] else []
  {
    assert (pods + [p])[..|pods|] == pods;
  }

  lemma InsertingIsStable(pods: seq<Pod>, p: Pod, r: seq<Pod>, r': seq<Pod>)
    requires SortedStably(pods, r) && SortedByMemory(r') && multiset(r') == multiset(r) + multiset{p}
    requires forall memory :: SameOrder(r + [p], r', memory)
    ensures SortedStably(pods + [p], r')
  {
    forall memory
      ensures SameOrder(pods + [p], r', memory)
    {
      OfMemoryAppend(pods, p, memory);
      OfMemoryAppend(r, p, memory);
      assert SameOrder(pods, r, memory) && SameOrder(r + [p], r', memory);
    }
  }

  /** One sorting step: p goes behind the pods that need no less memory. */
  method InsertByMemory(r: seq<Pod>, p: Pod) returns (r': seq<Pod>)
    requires SortedByMemory(r)
    ensures SortedByMemory(r') && multiset(r') == multiset(r) + multiset{p}
    ensures forall memory :: SameOrder(r + [p], r', memory)
  {
    var k := |r|;
    while k > 0 && r[k - 1].memory < p.memory
      invariant 0 <= k <= |r|
      invariant forall j :: k <= j < |r| ==> r[j].memory < p.memory
    {
      k := k - 1;
    }
    r' := r[..k] + [p] + r[k..];
    InsertedMultiset(r, p, k);
    InsertedSorted(r, p, k);
    forall memory
      ensures SameOrder(r + [p], r', memory)
    {
      InsertedStably(r, p, k, memory);
    }
  }

  lemma InsertedMultiset(r: seq<Pod>, p: Pod, k: nat)
    requires k <= |r|
    ensures multiset(r[..k] + [p] + r[k..]) == multiset(r) + multiset{p}
  {
    assert r == r[..k] + r[k..];
  }

  lemma InsertedSorted(r: seq<Pod>, p: Pod, k: nat)
    requires k <= |r| && SortedByMemory(r)
    requires forall j :: 0 <= j < k ==> r[j].memory >= p.memory
    requires forall j :: k <= j < |r| ==> r[j].memory < p.memory
    ensures SortedByMemory(r[..k] + [p] + r[k..])
  {
    var r' := r[..k] + [p] + r[k..];
    forall i, j | 0 <= i < j < |r'|
      ensures r'[i].memory >= r'[j].memory
    {
      assert i != k ==> r'[i] == r[if i < k then i else i - 1];
      assert j != k ==> r'[j] == r[if j < k then j else j - 1];
    }
  }

  lemma {:induction false} OfMemoryConcat(a: seq<Pod>, b: seq<Pod>, memory: real)
    ensures OfMemory(a + b, memory) == OfMemory(a, memory) + OfMemory(b, memory)
    decreases |b|
  {
    if b == [] {
      assert a + b == a;
    } else {
      var init, last := b[..|b| - 1], b[|b| - 1];
      OfMemoryConcat(a, init, memory);
      assert a + b == (a + init) + [last];
      OfMemoryAppend(a + init, last, memory);
    }
  }

  lemma {:induction false} NoneOfMemory(pods: seq<Pod>, memory: real)
    requires forall j :: 0 <= j < |pods| ==> pods[j].memory != memory
    ensures OfMemory(pods, memory) == []
  {
    if pods != [] {
      NoneOfMemory(pods[..|pods| - 1], memory);
    }
  }

  /** p comes after all pods of its memory. */
  lemma InsertedStably(r: seq<Pod>, p: Pod, k: nat, memory: real)
    requires k <= |r| && forall j :: k <= j < |r| ==> r[j].memory < p.memory
    ensures SameOrder(r + [p], r[..k] + [p] + r[k..], memory)
  {
    var a, b := r[..k], r[k..];
    assert r == a + b;
    OfMemoryConcat(a, b, memory);
    OfMemoryAppend(r, p, memory);
    OfMemoryConcat(a + [p], b, memory);
    OfMemoryAppend(a, p, memory);
    if p.memory == memory {
      NoneOfMemory(b, memory);
    }
  }

  // Step 3: packing.

  /** The inner loop: the first node that can take the pod gets it. */
  method PlacePod(nodes: seq<Node>, c: Capacity, pod: Pod, ghost bins: seq<Bin>) returns (placed: bool)
    requires Represents(nodes, c, bins)
    modifies nodes
    ensures placed <==> FirstFit(c, bins, pod, 0) < |bins|
    ensures Represents(nodes, c, if placed then Place(c, bins, pod).bins else bins)
  {
    for i := 0 to |nodes|
      invariant Represents(nodes, c, bins) && FirstFit(c, bins, pod, i) == FirstFit(c, bins, pod, 0)
    {
      if nodes[i].CanFit(pod) {
        assert FirstFit(c, bins, pod, 0) == i;
        var ok := nodes[i].AddPod(pod);
        assert forall j :: 0 <= j < |nodes| ==> nodes[j].Valid() && nodes[j].pods == Place(c, bins, pod).bins[j];
        return true;
      }
    }
    return false;
  }

  datatype Requirements = Nodes(nodes: seq<Node>) | ValueError(pod: Pod)

  /** The loop body: an existing node, a new node, or an error. */
  method PackPod(nodes: seq<Node>, c: Capacity, pod: Pod, ghost bins: seq<Bin>) returns (nodes': seq<Node>, ok: bool)
    requires Represents(nodes, c, bins)
    modifies nodes
    ensures ok == Place(c, bins, pod).Packed?
    ensures ok ==> forall i :: 0 <= i < |nodes'| ==> nodes'[i] in nodes || fresh(nodes'[i])
    ensures ok ==> Represents(nodes', c, Place(c, bins, pod).bins)
  {
    var placed := PlacePod(nodes, c, pod, bins);
    if placed {
      return nodes, true;
    }
    var node;
    node, ok := NewNode(|nodes| + 1, c, pod);
    nodes' := nodes + [node];
    if ok {
      RepresentsMore(nodes, c, bins, node, [pod]);
    }
  }

  lemma RepresentsMore(nodes: seq<Node>, c: Capacity, bins: seq<Bin>, node: Node, b: Bin)
    requires Represents(nodes, c, bins) && node !in nodes && node.Valid() && node.capacity == c && node.pods == b
    requires node.id == |nodes| + 1
    ensures Represents(nodes + [node], c, bins + [b])
  {
  }

  /** A new node for a pod that no existing node can take. */
  method NewNode(id: nat, c: Capacity, pod: Pod) returns (node: Node, ok: bool)
    ensures fresh(node) && node.Valid() && node.id == id && node.capacity == c
    ensures ok == Fits(c, [], pod) && (ok ==> node.pods == [pod])
  {
    node := new Node(id, c);
    ok := node.AddPod(pod);
    assert [] + [pod] == [pod];
  }

  /** The packing loops compute first fit. */
  method PackNodes(pods: seq<Pod>, c: Capacity) returns (r: Requirements)
    ensures r.Nodes? <==> Pack(c, pods).Packed?
    ensures r.Nodes? ==> Represents(r.nodes, c, Pack(c, pods).bins)
    ensures r.ValueError? ==> Pack(c, pods) == CannotFit(r.pod)
  {
    var nodes: seq<Node> := [];
    for i := 0 to |pods|
      invariant forall k :: 0 <= k < |nodes| ==> fresh(nodes[k])
      invariant Pack(c, pods[..i]).Packed? && Represents(nodes, c, Pack(c, pods[..i]).bins)
    {
      assert pods[..i + 1][..i] == pods[..i];
      var ok;
      nodes, ok := PackPod(nodes, c, pods[i], Pack(c, pods[..i]).bins);
      if !ok {
        PackFails(c, pods, i + 1);
        return ValueError(pods[i]);
      }
    }
    assert pods[..|pods|] == pods;
    r := Nodes(nodes);
  }

  /** The nodes hold what first fit makes of these pods in this order. */
  ghost predicate FirstFitOn(nodes: seq<Node>, c: Capacity, pods: seq<Pod>)
    reads nodes
  {
    Pack(c, pods).Packed? && Represents(nodes, c, Pack(c, pods).bins)
  }

  /** calculate_node_requirements: no error if every instance fits an empty node, and for non-negative sizes only
      then.  Without an error the nodes hold the first-fit-decreasing packing of exactly the expanded instances,
      which has all the guarantees of GoodPacking. */
  method CalculateNodeRequirements(ps: seq<Process>, node: Capacity, overhead: Capacity) returns (r: Requirements)
    ensures var c, pods := Capacity(node.cpu - overhead.cpu, node.mem - overhead.mem), Expand(ps);
            && (AllFit(c, pods) ==> r.Nodes?) && (NonNegative(pods) && r.Nodes? ==> AllFit(c, pods))
            && (r.Nodes? ==> exists sorted :: SortedStably(pods, sorted) && FirstFitOn(r.nodes, c, sorted)
                                              && GoodPacking(c, Pack(c, sorted).bins, pods))
            && (r.ValueError? ==> r.pod in pods && (r.pod.cpu > c.cpu || r.pod.memory > c.mem))
  {
    var c := Capacity(node.cpu - overhead.cpu, node.mem - overhead.mem);
    var pods := ExpandProcesses(ps);
    var sorted := SortByMemory(pods);
    PackReordered(c, pods, sorted);
    r := PackNodes(sorted, c);
    if r.ValueError? {
      ErrorNamesPod(c, sorted);
      SameMembers(pods, sorted);
    }
    assert r.Nodes? ==> FirstFitOn(r.nodes, c, sorted);
  }
}
