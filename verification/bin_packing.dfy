/**
 The first-fit-decreasing packer of binz/binz.py: pods are packed on identical nodes
 with two resources and at most one instance of a process per node.
 */
module BinPacking {

  datatype Process = Process(name: string, memory: real, cpu: real, instances: int)

  /** One instance of a process; its name in the reports is the process name and the number. */
  datatype Pod = Pod(name: string, number: nat, memory: real, cpu: real)

  datatype Capacity = Capacity(cpu: real, mem: real)

  // ---- First fit on values ----

  /** The pods of one node, in the order of placement. */
  type Bin = seq<Pod>

  function Cpu(pods: seq<Pod>): real
  {
    if pods == [] then 0.0 else Cpu(pods[..|pods| - 1]) + pods[|pods| - 1].cpu
  }

  function Mem(pods: seq<Pod>): real
  {
    if pods == [] then 0.0 else Mem(pods[..|pods| - 1]) + pods[|pods| - 1].memory
  }

  /** The processes with an instance among these pods. */
  function Names(pods: seq<Pod>): set<string>
  {
    if pods == [] then {} else Names(pods[..|pods| - 1]) + {pods[|pods| - 1].name}
  }

  /** Node.can_fit: enough of both resources left, and no instance of the same process. */
  predicate Fits(c: Capacity, b: Bin, p: Pod)
  {
    c.cpu - Cpu(b) >= p.cpu && c.mem - Mem(b) >= p.memory && p.name !in Names(b)
  }

  /** The first node from i on that can take p, or the number of nodes. */
  function FirstFit(c: Capacity, bins: seq<Bin>, p: Pod, i: nat): (k: nat)
    requires i <= |bins|
    ensures i <= k <= |bins|
    ensures k < |bins| ==> Fits(c, bins[k], p)
    ensures forall j :: i <= j < k ==> !Fits(c, bins[j], p)
    decreases |bins| - i
  {
    if i == |bins| || Fits(c, bins[i], p) then i else FirstFit(c, bins, p, i + 1)
  }

  datatype Packing = Packed(bins: seq<Bin>) | CannotFit(pod: Pod)

  function Place(c: Capacity, bins: seq<Bin>, p: Pod): Packing
  {
    var k := FirstFit(c, bins, p, 0);
    if k < |bins| then Packed(bins[k := bins[k] + [p]])
    else if Fits(c, [], p) then Packed(bins + [[p]])
    else CannotFit(p)
  }

  function Pack(c: Capacity, pods: seq<Pod>): Packing
  {
    if pods == [] then Packed([])
    else
      var r := Pack(c, pods[..|pods| - 1]);
      if r.CannotFit? then r else Place(c, r.bins, pods[|pods| - 1])
  }

  // ---- The invariant of a packing ----

  predicate NonNegative(pods: seq<Pod>)
  {
    forall k :: 0 <= k < |pods| ==> pods[k].cpu >= 0.0 && pods[k].memory >= 0.0
  }

  predicate OncePerProcess(b: Bin)
  {
    forall i, j :: 0 <= i < j < |b| ==> b[i].name != b[j].name
  }

  /** What holds of every node for sizes of any sign. */
  ghost predicate Loaded(c: Capacity, b: Bin)
  {
    b != [] && OncePerProcess(b) && Cpu(b) <= c.cpu && Mem(b) <= c.mem
  }

  ghost predicate AllLoaded(c: Capacity, bins: seq<Bin>)
  {
    forall i {:trigger Loaded(c, bins[i])} :: 0 <= i < |bins| ==> Loaded(c, bins[i])
  }

  ghost predicate BinOk(c: Capacity, b: Bin)
  {
    NonNegative(b) && Loaded(c, b)
  }

  /** No pod of node j would fit on the earlier node i. */
  ghost predicate NoEarlierFit(c: Capacity, bins: seq<Bin>, i: nat, j: nat)
    requires i < |bins| && j < |bins|
  {
    forall k :: 0 <= k < |bins[j]| ==> !Fits(c, bins[i], bins[j][k])
  }

  ghost predicate PackingOk(c: Capacity, bins: seq<Bin>)
  {
    && (forall i {:trigger BinOk(c, bins[i])} :: 0 <= i < |bins| ==> BinOk(c, bins[i]))
    && (forall i, j {:trigger NoEarlierFit(c, bins, i, j)} :: 0 <= i < j < |bins| ==> NoEarlierFit(c, bins, i, j))
  }

  ghost function PodsOf(bins: seq<Bin>): multiset<Pod>
  {
    if bins == [] then multiset{} else PodsOf(bins[..|bins| - 1]) + multiset(bins[|bins| - 1])
  }

  lemma SumsAdd(c: Capacity, b: Bin, p: Pod)
    ensures Cpu(b + [p]) == Cpu(b) + p.cpu && Mem(b + [p]) == Mem(b) + p.memory
    ensures multiset(b + [p]) == multiset(b) + multiset{p} && Names(b + [p]) == Names(b) + {p.name}
  {
    assert (b + [p])[..|b|] == b;
  }

  lemma {:induction false} NonNegativeSums(pods: seq<Pod>)
    requires NonNegative(pods)
    ensures Cpu(pods) >= 0.0 && Mem(pods) >= 0.0
  {
    if pods != [] {
      NonNegativeSums(pods[..|pods| - 1]);
    }
  }

  /** A fuller node fits no more than it did. */
  lemma FullerFitsLess(c: Capacity, b: Bin, p: Pod, q: Pod)
    requires p.cpu >= 0.0 && p.memory >= 0.0 && !Fits(c, b, q)
    ensures !Fits(c, b + [p], q)
  {
    SumsAdd(c, b, p);
  }

  lemma {:induction false} MemberName(b: Bin, k: nat)
    requires k < |b|
    ensures b[k].name in Names(b)
  {
    if k < |b| - 1 {
      MemberName(b[..|b| - 1], k);
    }
  }

  lemma {:induction false} NotNamed(b: Bin, name: string)
    requires forall k :: 0 <= k < |b| ==> b[k].name != name
    ensures name !in Names(b)
  {
    if b != [] {
      NotNamed(b[..|b| - 1], name);
    }
  }

  lemma OnceMore(b: Bin, p: Pod)
    requires OncePerProcess(b) && p.name !in Names(b)
    ensures OncePerProcess(b + [p])
  {
    forall i | 0 <= i < |b|
      ensures b[i].name != p.name
    {
      MemberName(b, i);
    }
  }

  lemma FittingLoads(c: Capacity, b: Bin, p: Pod)
    requires (b == [] || Loaded(c, b)) && Fits(c, b, p)
    ensures Loaded(c, b + [p])
  {
    SumsAdd(c, b, p);
    OnceMore(b, p);
  }

  lemma FittingBinOk(c: Capacity, b: Bin, p: Pod)
    requires (b == [] || BinOk(c, b)) && Fits(c, b, p) && p.cpu >= 0.0 && p.memory >= 0.0
    ensures BinOk(c, b + [p])
  {
    FittingLoads(c, b, p);
  }

  lemma PlaceOnExisting(c: Capacity, bins: seq<Bin>, p: Pod, m: nat)
    requires PackingOk(c, bins) && p.cpu >= 0.0 && p.memory >= 0.0
    requires m < |bins| && Fits(c, bins[m], p) && forall j :: 0 <= j < m ==> !Fits(c, bins[j], p)
    ensures PackingOk(c, bins[m := bins[m] + [p]])
  {
    var after := bins[m := bins[m] + [p]];
    forall i | 0 <= i < |after|
      ensures BinOk(c, after[i])
    {
      assert BinOk(c, bins[i]);
      if i == m {
        FittingBinOk(c, bins[m], p);
      }
    }
    forall i, j | 0 <= i < j < |after|
      ensures NoEarlierFit(c, after, i, j)
    {
      assert NoEarlierFit(c, bins, i, j);
      forall k | 0 <= k < |after[j]|
        ensures !Fits(c, after[i], after[j][k])
      {
        if i == m {
          FullerFitsLess(c, bins[i], p, after[j][k]);
        }
      }
    }
  }

  lemma PlaceOnNew(c: Capacity, bins: seq<Bin>, p: Pod)
    requires PackingOk(c, bins) && p.cpu >= 0.0 && p.memory >= 0.0
    requires Fits(c, [], p) && forall j :: 0 <= j < |bins| ==> !Fits(c, bins[j], p)
    ensures PackingOk(c, bins + [[p]])
  {
    var after := bins + [[p]];
    FittingBinOk(c, [], p);
    assert [] + [p] == [p];
    forall i | 0 <= i < |after|
      ensures BinOk(c, after[i])
    {
      assert i < |bins| ==> BinOk(c, bins[i]);
    }
    forall i, j | 0 <= i < j < |after|
      ensures NoEarlierFit(c, after, i, j)
    {
      if j < |bins| {
        assert NoEarlierFit(c, bins, i, j) && after[i] == bins[i] && after[j] == bins[j];
      } else {
        assert after[i] == bins[i] && after[j] == [p];
      }
    }
  }

  lemma {:induction false} PodsOfUpdate(bins: seq<Bin>, m: nat, p: Pod)
    requires m < |bins|
    ensures PodsOf(bins[m := bins[m] + [p]]) == PodsOf(bins) + multiset{p}
  {
    var n := |bins| - 1;
    var after := bins[m := bins[m] + [p]];
    if m == n {
      assert after[..n] == bins[..n];
    } else {
      assert after[..n] == bins[..n][m := bins[m] + [p]];
      PodsOfUpdate(bins[..n], m, p);
    }
  }

  lemma FitsEmpty(c: Capacity, b: Bin, p: Pod)
    requires BinOk(c, b) && Fits(c, b, p)
    ensures Fits(c, [], p)
  {
    NonNegativeSums(b);
  }

  /** Every pod fits an empty node. */
  predicate AllFit(c: Capacity, pods: seq<Pod>)
  {
    forall p :: p in pods ==> p.cpu <= c.cpu && p.memory <= c.mem
  }

  lemma PlaceIsSound(c: Capacity, bins: seq<Bin>, p: Pod)
    requires AllLoaded(c, bins)
    ensures Fits(c, [], p) ==> Place(c, bins, p).Packed?
    ensures Place(c, bins, p).Packed? ==>
              AllLoaded(c, Place(c, bins, p).bins) && PodsOf(Place(c, bins, p).bins) == PodsOf(bins) + multiset{p}
  {
    var k := FirstFit(c, bins, p, 0);
    if k < |bins| {
      assert Loaded(c, bins[k]);
      FittingLoads(c, bins[k], p);
      PodsOfUpdate(bins, k, p);
      var after := bins[k := bins[k] + [p]];
      forall i | 0 <= i < |bins|
        ensures Loaded(c, after[i])
      {
        assert Loaded(c, bins[i]);
      }
    } else if Fits(c, [], p) {
      NewNodeIsSound(c, bins, p);
    }
  }

  lemma NewNodeIsSound(c: Capacity, bins: seq<Bin>, p: Pod)
    requires AllLoaded(c, bins) && Fits(c, [], p)
    ensures AllLoaded(c, bins + [[p]]) && PodsOf(bins + [[p]]) == PodsOf(bins) + multiset{p}
  {
    FittingLoads(c, [], p);
    assert [] + [p] == [p];
    assert (bins + [[p]])[..|bins|] == bins;
    forall i | 0 <= i < |bins|
      ensures Loaded(c, (bins + [[p]])[i])
    {
      assert Loaded(c, bins[i]);
    }
  }

  /** For sizes of any sign: first fit succeeds if every pod fits an empty node; if it succeeds, every pod is placed
      once, no node exceeds a capacity and no node hosts a process twice. */
  lemma {:induction false} PackIsSound(c: Capacity, pods: seq<Pod>)
    ensures AllFit(c, pods) ==> Pack(c, pods).Packed?
    ensures Pack(c, pods).Packed? ==> AllLoaded(c, Pack(c, pods).bins) && PodsOf(Pack(c, pods).bins) == multiset(pods)
    decreases |pods|
  {
    if pods != [] {
      var init, p := pods[..|pods| - 1], pods[|pods| - 1];
      assert pods == init + [p];
      PackIsSound(c, init);
      AllFitStep(c, init, p);
      if Pack(c, init).Packed? {
        PlaceIsSound(c, Pack(c, init).bins, p);
      }
    }
  }

  lemma PlaceIsCorrect(c: Capacity, bins: seq<Bin>, p: Pod)
    requires PackingOk(c, bins) && p.cpu >= 0.0 && p.memory >= 0.0
    ensures Place(c, bins, p).Packed? <==> Fits(c, [], p)
    ensures Place(c, bins, p).Packed? ==>
              PackingOk(c, Place(c, bins, p).bins) && PodsOf(Place(c, bins, p).bins) == PodsOf(bins) + multiset{p}
  {
    var k := FirstFit(c, bins, p, 0);
    if k < |bins| {
      PlaceOnExisting(c, bins, p, k);
      PodsOfUpdate(bins, k, p);
      assert BinOk(c, bins[k]);
      FitsEmpty(c, bins[k], p);
    } else if Fits(c, [], p) {
      PlaceOnNew(c, bins, p);
      assert (bins + [[p]])[..|bins|] == bins;
    }
  }

  /** First fit keeps the packing valid, places every pod exactly once, and fails only on a pod that does
      not fit an empty node. */
  lemma {:induction false} PackIsCorrect(c: Capacity, pods: seq<Pod>)
    requires NonNegative(pods)
    ensures Pack(c, pods).Packed? <==> AllFit(c, pods)
    ensures Pack(c, pods).Packed? ==> PackingOk(c, Pack(c, pods).bins) && PodsOf(Pack(c, pods).bins) == multiset(pods)
    decreases |pods|
  {
    if pods != [] {
      var init, p := pods[..|pods| - 1], pods[|pods| - 1];
      assert pods == init + [p];
      PackIsCorrect(c, init);
      AllFitStep(c, init, p);
      if Pack(c, init).Packed? {
        PlaceIsCorrect(c, Pack(c, init).bins, p);
      }
    }
  }

  lemma AllFitStep(c: Capacity, init: seq<Pod>, p: Pod)
    ensures AllFit(c, init + [p]) <==> AllFit(c, init) && Fits(c, [], p)
  {
    assert p in init + [p];
    assert forall q :: q in init ==> q in init + [p];
  }

  // ---- The bound on the number of nodes ----

  /** The number of pods of a process. */
  function CountOf(pods: seq<Pod>, name: string): nat
  {
    if pods == [] then 0 else CountOf(pods[..|pods| - 1], name) + if pods[|pods| - 1].name == name then 1 else 0
  }

  /** No process has more than m instances. */
  ghost predicate AtMost(pods: seq<Pod>, m: nat)
  {
    forall name :: CountOf(pods, name) <= m
  }

  /** The number of nodes that host a process. */
  function Hosts(bins: seq<Bin>, name: string): nat
  {
    if bins == [] then 0 else Hosts(bins[..|bins| - 1], name) + if name in Names(bins[|bins| - 1]) then 1 else 0
  }

  function TotalCpu(bins: seq<Bin>): real
  {
    if bins == [] then 0.0 else TotalCpu(bins[..|bins| - 1]) + Cpu(bins[|bins| - 1])
  }

  function TotalMem(bins: seq<Bin>): real
  {
    if bins == [] then 0.0 else TotalMem(bins[..|bins| - 1]) + Mem(bins[|bins| - 1])
  }

  /** Combined load of both resources, scaled to a common unit. */
  function Weight(c: Capacity, cpu: real, mem: real): real
  {
    c.cpu * mem + c.mem * cpu
  }

  lemma MulMonotone(a: real, x: real, y: real)
    requires a >= 0.0 && x <= y
    ensures a * x <= a * y
  {
  }

  lemma WeightMonotone(c: Capacity, cpu: real, mem: real, cpu': real, mem': real)
    requires c.cpu >= 0.0 && c.mem >= 0.0 && cpu <= cpu' && mem <= mem'
    ensures Weight(c, cpu, mem) <= Weight(c, cpu', mem')
  {
    MulMonotone(c.cpu, mem, mem');
    MulMonotone(c.mem, cpu, cpu');
  }

  /** Exceeding one resource alone makes a full node's worth of weight. */
  lemma ExceedingIsHeavy(c: Capacity, cpu: real, mem: real)
    requires c.cpu >= 0.0 && c.mem >= 0.0 && cpu >= 0.0 && mem >= 0.0 && (cpu >= c.cpu || mem >= c.mem)
    ensures Weight(c, cpu, mem) >= c.cpu * c.mem
  {
    if cpu >= c.cpu {
      WeightMonotone(c, c.cpu, 0.0, cpu, mem);
    } else {
      WeightMonotone(c, 0.0, c.mem, cpu, mem);
    }
  }

  lemma {:induction false} MemberLoad(b: Bin, k: nat)
    requires NonNegative(b) && k < |b|
    ensures b[k].cpu <= Cpu(b) && b[k].memory <= Mem(b)
  {
    var n := |b| - 1;
    if k == n {
      NonNegativeSums(b[..n]);
    } else {
      MemberLoad(b[..n], k);
    }
  }

  /** A node and an earlier one that does not host its first pod's process carry at least one full node's
      worth of weight. */
  lemma PairIsHeavy(c: Capacity, bins: seq<Bin>, i: nat, j: nat)
    requires PackingOk(c, bins) && i < j < |bins| && c.cpu >= 0.0 && c.mem >= 0.0
    requires bins[j] != [] && bins[j][0].name !in Names(bins[i])
    ensures Weight(c, Cpu(bins[i]) + Cpu(bins[j]), Mem(bins[i]) + Mem(bins[j])) >= c.cpu * c.mem
  {
    assert BinOk(c, bins[i]) && BinOk(c, bins[j]) && NoEarlierFit(c, bins, i, j);
    var a, b := bins[i], bins[j];
    MemberLoad(b, 0);
    assert !Fits(c, a, b[0]);
    NonNegativeSums(a);
    NonNegativeSums(b);
    ExceedingIsHeavy(c, Cpu(a) + Cpu(b), Mem(a) + Mem(b));
  }

  lemma WeightSum(c: Capacity, cpu1: real, mem1: real, cpu2: real, mem2: real)
    ensures Weight(c, cpu1 + cpu2, mem1 + mem2) == Weight(c, cpu1, mem1) + Weight(c, cpu2, mem2)
  {
  }

  /** n times x, as a sum. */
  function Times(n: nat, x: real): real
  {
    if n == 0 then 0.0 else Times(n - 1, x) + x
  }

  lemma {:induction false} TimesIsProduct(n: nat, x: real)
    ensures Times(n, x) == n as real * x
  {
    if n > 0 {
      TimesIsProduct(n - 1, x);
      assert n as real == (n - 1) as real + 1.0;
      assert ((n - 1) as real + 1.0) * x == (n - 1) as real * x + x;
    }
  }

  /** bins without the k-th one. */
  function Without(bins: seq<Bin>, k: nat): (rest: seq<Bin>)
    requires k < |bins|
    ensures |rest| == |bins| - 1 && forall j :: 0 <= j < |rest| ==> rest[j] == bins[if j < k then j else j + 1]
  {
    bins[..k] + bins[k + 1..]
  }

  lemma {:induction false} TotalsWithout(bins: seq<Bin>, k: nat)
    requires k < |bins|
    ensures TotalCpu(bins) == TotalCpu(Without(bins, k)) + Cpu(bins[k])
    ensures TotalMem(bins) == TotalMem(Without(bins, k)) + Mem(bins[k])
    decreases |bins|
  {
    var n := |bins| - 1;
    if k == n {
      assert Without(bins, k) == bins[..n];
    } else {
      TotalsWithout(bins[..n], k);
      assert Without(bins, k)[..n - 1] == Without(bins[..n], k);
    }
  }

  lemma {:induction false} HostsWithout(bins: seq<Bin>, k: nat, name: string)
    requires k < |bins|
    ensures Hosts(Without(bins, k), name) <= Hosts(bins, name)
    decreases |bins|
  {
    var n := |bins| - 1;
    if k == n {
      assert Without(bins, k) == bins[..n];
    } else {
      HostsWithout(bins[..n], k, name);
      assert Without(bins, k)[..n - 1] == Without(bins[..n], k);
    }
  }

  lemma PackingWithout(c: Capacity, bins: seq<Bin>, k: nat)
    requires PackingOk(c, bins) && k < |bins|
    ensures PackingOk(c, Without(bins, k))
  {
    var rest := Without(bins, k);
    forall i | 0 <= i < |rest|
      ensures BinOk(c, rest[i])
    {
      assert BinOk(c, bins[if i < k then i else i + 1]);
    }
    forall i, j | 0 <= i < j < |rest|
      ensures NoEarlierFit(c, rest, i, j)
    {
      assert NoEarlierFit(c, bins, if i < k then i else i + 1, if j < k then j else j + 1);
    }
  }

  /** A process on fewer nodes than there are is missing on one of them. */
  lemma {:induction false} MissingOn(bins: seq<Bin>, name: string) returns (i: nat)
    requires Hosts(bins, name) < |bins|
    ensures i < |bins| && name !in Names(bins[i])
    decreases |bins|
  {
    var n := |bins| - 1;
    if name !in Names(bins[n]) {
      i := n;
    } else {
      i := MissingOn(bins[..n], name);
    }
  }

  lemma {:induction false} TotalsNonNegative(c: Capacity, bins: seq<Bin>)
    requires PackingOk(c, bins)
    ensures TotalCpu(bins) >= 0.0 && TotalMem(bins) >= 0.0
    decreases |bins|
  {
    if bins != [] {
      var n := |bins| - 1;
      assert Without(bins, n) == bins[..n];
      PackingWithout(c, bins, n);
      TotalsNonNegative(c, bins[..n]);
      assert BinOk(c, bins[n]);
      NonNegativeSums(bins[n]);
    }
  }

  /** The number of disjoint pairs of k nodes that are sure to conflict on resources if no process has more
      than m instances. */
  function Pairs(k: nat, m: nat): nat
  {
    if k < m then 0 else (k - m + 1) / 2
  }

  /** Pairing each time the last node with one that does not host its first pod's process. */
  lemma {:induction false} PairsAreHeavy(c: Capacity, bins: seq<Bin>, m: nat)
    requires PackingOk(c, bins) && c.cpu >= 0.0 && c.mem >= 0.0 && m >= 1
    requires forall name :: Hosts(bins, name) <= m
    ensures Weight(c, TotalCpu(bins), TotalMem(bins)) >= Times(Pairs(|bins|, m), c.cpu * c.mem)
    decreases |bins|
  {
    if |bins| <= m {
      TotalsNonNegative(c, bins);
      WeightMonotone(c, 0.0, 0.0, TotalCpu(bins), TotalMem(bins));
    } else {
      var n := |bins| - 1;
      assert BinOk(c, bins[n]);
      var name := bins[n][0].name;
      MemberName(bins[n], 0);
      assert m >= Hosts(bins, name) == Hosts(bins[..n], name) + 1;
      var i := MissingOn(bins[..n], name);
      var init, rest := Without(bins, n), Without(Without(bins, n), i);
      PackingWithout(c, bins, n);
      PackingWithout(c, init, i);
      forall name
        ensures Hosts(rest, name) <= m
      {
        HostsWithout(bins, n, name);
        HostsWithout(init, i, name);
      }
      PairsAreHeavy(c, rest, m);
      PairTotals(bins, n, i);
      OneMorePair(c, bins, n, i, TotalCpu(rest), TotalMem(rest));
      assert Pairs(|bins|, m) == Pairs(|rest|, m) + 1;
    }
  }

  lemma OneMorePair(c: Capacity, bins: seq<Bin>, n: nat, i: nat, cpu: real, mem: real)
    requires PackingOk(c, bins) && c.cpu >= 0.0 && c.mem >= 0.0 && i < n < |bins|
    requires bins[n] != [] && bins[n][0].name !in Names(bins[i])
    ensures Weight(c, cpu + (Cpu(bins[i]) + Cpu(bins[n])), mem + (Mem(bins[i]) + Mem(bins[n])))
            >= Weight(c, cpu, mem) + c.cpu * c.mem
  {
    PairIsHeavy(c, bins, i, n);
    WeightSum(c, cpu, mem, Cpu(bins[i]) + Cpu(bins[n]), Mem(bins[i]) + Mem(bins[n]));
  }

  lemma PairTotals(bins: seq<Bin>, n: nat, i: nat)
    requires i < n == |bins| - 1
    ensures var rest := Without(Without(bins, n), i);
            && TotalCpu(bins) == TotalCpu(rest) + (Cpu(bins[i]) + Cpu(bins[n]))
            && TotalMem(bins) == TotalMem(rest) + (Mem(bins[i]) + Mem(bins[n]))
  {
    TotalsWithout(bins, n);
    TotalsWithout(Without(bins, n), i);
  }

  // Packing neither adds nor loses load.

  lemma {:induction false} TotalsUpdate(c: Capacity, bins: seq<Bin>, m: nat, p: Pod)
    requires m < |bins|
    ensures TotalCpu(bins[m := bins[m] + [p]]) == TotalCpu(bins) + p.cpu
    ensures TotalMem(bins[m := bins[m] + [p]]) == TotalMem(bins) + p.memory
  {
    var n := |bins| - 1;
    var after := bins[m := bins[m] + [p]];
    if m == n {
      assert after[..n] == bins[..n];
      SumsAdd(c, bins[m], p);
    } else {
      assert after[..n] == bins[..n][m := bins[m] + [p]];
      TotalsUpdate(c, bins[..n], m, p);
    }
  }

  lemma {:induction false} PackKeepsLoad(c: Capacity, pods: seq<Pod>)
    requires Pack(c, pods).Packed?
    ensures TotalCpu(Pack(c, pods).bins) == Cpu(pods) && TotalMem(Pack(c, pods).bins) == Mem(pods)
    decreases |pods|
  {
    if pods != [] {
      var init, p := pods[..|pods| - 1], pods[|pods| - 1];
      PackKeepsLoad(c, init);
      var bins := Pack(c, init).bins;
      var k := FirstFit(c, bins, p, 0);
      if k < |bins| {
        TotalsUpdate(c, bins, k, p);
      } else {
        assert (bins + [[p]])[..|bins|] == bins;
        SumsAdd(c, [], p);
        assert [] + [p] == [p];
      }
    }
  }

  lemma {:induction false} HostsUpdate(c: Capacity, bins: seq<Bin>, k: nat, p: Pod, name: string)
    requires k < |bins|
    ensures Hosts(bins[k := bins[k] + [p]], name) <= Hosts(bins, name) + if p.name == name then 1 else 0
  {
    var n := |bins| - 1;
    var after := bins[k := bins[k] + [p]];
    SumsAdd(c, bins[k], p);
    if k == n {
      assert after[..n] == bins[..n];
    } else {
      assert after[..n] == bins[..n][k := bins[k] + [p]];
      HostsUpdate(c, bins[..n], k, p, name);
    }
  }

  /** A process is on no more nodes than it has instances. */
  lemma {:induction false} PackKeepsHosts(c: Capacity, pods: seq<Pod>, name: string)
    requires Pack(c, pods).Packed?
    ensures Hosts(Pack(c, pods).bins, name) <= CountOf(pods, name)
    decreases |pods|
  {
    if pods != [] {
      var init, p := pods[..|pods| - 1], pods[|pods| - 1];
      PackKeepsHosts(c, init, name);
      var bins := Pack(c, init).bins;
      var k := FirstFit(c, bins, p, 0);
      if k < |bins| {
        HostsUpdate(c, bins, k, p, name);
      } else {
        assert (bins + [[p]])[..|bins|] == bins;
        SumsAdd(c, [], p);
        assert [] + [p] == [p];
      }
    }
  }

  /** Some pod was placed, so the capacities are not negative. */
  lemma CapacityNonNegative(c: Capacity, bins: seq<Bin>)
    requires PackingOk(c, bins) && bins != []
    ensures c.cpu >= 0.0 && c.mem >= 0.0
  {
    assert BinOk(c, bins[0]);
    NonNegativeSums(bins[0]);
  }

  lemma EmptyPack(c: Capacity, pods: seq<Pod>)
    requires Pack(c, pods) == Packed([])
    ensures pods == []
  {
  }

  /** First fit uses at most about twice as many nodes as the total load needs, not counting one less than the
      instances of the most frequent process: Pairs(K, m) times one node's worth of weight is no more than the weight
      of all pods.  (Times is the product, by TimesIsProduct.) */
  lemma FirstFitBound(c: Capacity, pods: seq<Pod>, m: nat)
    requires NonNegative(pods) && AtMost(pods, m) && m >= 1 && Pack(c, pods).Packed?
    ensures Times(Pairs(|Pack(c, pods).bins|, m), c.cpu * c.mem) <= Weight(c, Cpu(pods), Mem(pods))
  {
    var bins := Pack(c, pods).bins;
    if bins == [] {
      EmptyPack(c, pods);
    } else {
      PackIsCorrect(c, pods);
      PackKeepsLoad(c, pods);
      CapacityNonNegative(c, bins);
      forall name
        ensures Hosts(bins, name) <= m
      {
        PackKeepsHosts(c, pods, name);
      }
      PairsAreHeavy(c, bins, m);
    }
  }

  // ---- Reordering the pods ----

  lemma {:induction false} SumsRemove(b: seq<Pod>, k: nat)
    requires k < |b|
    ensures Cpu(b) == Cpu(b[..k] + b[k + 1..]) + b[k].cpu && Mem(b) == Mem(b[..k] + b[k + 1..]) + b[k].memory
    decreases |b|
  {
    var n := |b| - 1;
    if k == n {
      assert b[..k] + b[k + 1..] == b[..n];
    } else {
      SumsRemove(b[..n], k);
      var rest := b[..k] + b[k + 1..];
      assert rest[..|rest| - 1] == b[..n][..k] + b[..n][k + 1..];
      assert rest[|rest| - 1] == b[n];
    }
  }

  lemma {:induction false} CountRemove(b: seq<Pod>, k: nat, name: string)
    requires k < |b|
    ensures CountOf(b, name) == CountOf(b[..k] + b[k + 1..], name) + if b[k].name == name then 1 else 0
    decreases |b|
  {
    var n := |b| - 1;
    if k == n {
      assert b[..k] + b[k + 1..] == b[..n];
    } else {
      CountRemove(b[..n], k, name);
      var rest := b[..k] + b[k + 1..];
      assert rest[..|rest| - 1] == b[..n][..k] + b[..n][k + 1..];
      assert rest[|rest| - 1] == b[n];
    }
  }

  lemma RestMultiset(b: seq<Pod>, k: nat)
    requires k < |b|
    ensures multiset(b[..k] + b[k + 1..]) == multiset(b) - multiset{b[k]}
  {
    assert b == b[..k] + [b[k]] + b[k + 1..];
  }

  /** The total load and the number of pods of a process do not depend on the order of the pods. */
  lemma {:induction false} SumsPermute(a: seq<Pod>, b: seq<Pod>, name: string)
    requires multiset(a) == multiset(b)
    ensures Cpu(a) == Cpu(b) && Mem(a) == Mem(b) && CountOf(a, name) == CountOf(b, name)
    decreases |a|
  {
    if a == [] {
      assert |multiset(b)| == 0;
    } else {
      var init, p := a[..|a| - 1], a[|a| - 1];
      assert a == init + [p];
      assert p in multiset(b);
      var k :| 0 <= k < |b| && b[k] == p;
      var rest := b[..k] + b[k + 1..];
      RestMultiset(b, k);
      assert multiset(init) == multiset(a) - multiset{p};
      SumsPermute(init, rest, name);
      SumsRemove(b, k);
      CountRemove(b, k, name);
    }
  }

  lemma SameMembers(a: seq<Pod>, b: seq<Pod>)
    requires multiset(a) == multiset(b)
    ensures forall p :: p in a <==> p in b
    ensures NonNegative(a) ==> NonNegative(b)
  {
    forall p
      ensures p in a <==> p in b
    {
      assert p in a <==> p in multiset(a);
      assert p in b <==> p in multiset(b);
    }
    if NonNegative(a) {
      forall k | 0 <= k < |b|
        ensures b[k].cpu >= 0.0 && b[k].memory >= 0.0
      {
        assert b[k] in a;
      }
    }
  }

  /** What a packing of these pods is worth.  For sizes of any sign it is complete and within the capacities; for
      non-negative sizes no pod would fit on an earlier node and the number of nodes is bounded. */
  ghost predicate GoodPacking(c: Capacity, bins: seq<Bin>, pods: seq<Pod>)
  {
    && AllLoaded(c, bins) && PodsOf(bins) == multiset(pods)
    && (NonNegative(pods) ==> PackingOk(c, bins) && forall m: nat :: m >= 1 ==> Bounded(c, bins, pods, m))
  }

  /** The bound for at most m instances of a process. */
  ghost predicate Bounded(c: Capacity, bins: seq<Bin>, pods: seq<Pod>, m: nat)
  {
    AtMost(pods, m) ==> Times(Pairs(|bins|, m), c.cpu * c.mem) <= Weight(c, Cpu(pods), Mem(pods))
  }

  /** First fit on any reordering of the pods. */
  lemma PackReordered(c: Capacity, pods: seq<Pod>, sorted: seq<Pod>)
    requires multiset(sorted) == multiset(pods)
    ensures AllFit(c, pods) ==> Pack(c, sorted).Packed?
    ensures NonNegative(pods) && Pack(c, sorted).Packed? ==> AllFit(c, pods)
    ensures Pack(c, sorted).Packed? ==> GoodPacking(c, Pack(c, sorted).bins, pods)
  {
    SameMembers(pods, sorted);
    PackIsSound(c, sorted);
    if NonNegative(pods) {
      PackIsCorrect(c, sorted);
      if Pack(c, sorted).Packed? {
        forall m: nat | m >= 1
          ensures Bounded(c, Pack(c, sorted).bins, pods, m)
        {
          BoundReordered(c, pods, sorted, m);
        }
      }
    }
  }

  lemma BoundReordered(c: Capacity, pods: seq<Pod>, sorted: seq<Pod>, m: nat)
    requires multiset(sorted) == multiset(pods) && NonNegative(pods) && NonNegative(sorted)
    requires m >= 1 && Pack(c, sorted).Packed?
    ensures Bounded(c, Pack(c, sorted).bins, pods, m)
  {
    if AtMost(pods, m) {
      forall name
        ensures CountOf(sorted, name) <= m
      {
        SumsPermute(pods, sorted, name);
      }
      SumsPermute(pods, sorted, "");
      FirstFitBound(c, sorted, m);
    }
  }

  // ---- Negative sizes ----

  /** Packing stops at the first pod that it cannot place. */
  lemma {:induction false} PackFails(c: Capacity, pods: seq<Pod>, n: nat)
    requires n <= |pods| && Pack(c, pods[..n]).CannotFit?
    ensures Pack(c, pods) == Pack(c, pods[..n])
    decreases |pods|
  {
    if n < |pods| {
      assert pods[..|pods| - 1][..n] == pods[..n];
      PackFails(c, pods[..|pods| - 1], n);
    } else {
      assert pods[..n] == pods;
    }
  }

  /** The pod that the error names is one of the pods, and does not fit an empty node. */
  lemma {:induction false} ErrorNamesPod(c: Capacity, pods: seq<Pod>)
    requires Pack(c, pods).CannotFit?
    ensures Pack(c, pods).pod in pods
    ensures Pack(c, pods).pod.cpu > c.cpu || Pack(c, pods).pod.memory > c.mem
    decreases |pods|
  {
    if pods != [] {
      var init := pods[..|pods| - 1];
      if Pack(c, init).CannotFit? {
        ErrorNamesPod(c, init);
      }
    }
  }

  /** Pod i asks for more of a resource than a node has, and no earlier pod has a negative size of that resource. */
  ghost predicate Hopeless(c: Capacity, pods: seq<Pod>, i: nat)
    requires i < |pods|
  {
    || (pods[i].cpu > c.cpu && forall k :: 0 <= k < i ==> pods[k].cpu >= 0.0)
    || (pods[i].memory > c.mem && forall k :: 0 <= k < i ==> pods[k].memory >= 0.0)
  }

  lemma {:induction false} PlacedBefore(bins: seq<Bin>, k: nat, q: Pod)
    requires k < |bins| && q in bins[k]
    ensures q in PodsOf(bins)
  {
    if k < |bins| - 1 {
      PlacedBefore(bins[..|bins| - 1], k, q);
    }
  }

  lemma {:induction false} LoadNonNegative(b: Bin)
    ensures (forall q :: q in b ==> q.cpu >= 0.0) ==> Cpu(b) >= 0.0
    ensures (forall q :: q in b ==> q.memory >= 0.0) ==> Mem(b) >= 0.0
  {
    if b != [] {
      LoadNonNegative(b[..|b| - 1]);
    }
  }

  /** Such a pod fits on no node that can be open when its turn comes. */
  lemma HopelessStops(c: Capacity, pods: seq<Pod>, i: nat)
    requires i < |pods| && Hopeless(c, pods, i)
    ensures Pack(c, pods[..i + 1]).CannotFit?
  {
    var init, p := pods[..i], pods[i];
    assert pods[..i + 1][..i] == init;
    PackIsSound(c, init);
    if Pack(c, init).Packed? {
      var bins := Pack(c, init).bins;
      forall k | 0 <= k < |bins|
        ensures !Fits(c, bins[k], p)
      {
        forall q | q in bins[k]
          ensures q in init
        {
          PlacedBefore(bins, k, q);
          assert q in multiset(init);
        }
        LoadNonNegative(bins[k]);
      }
    }
  }

  /** The error is exact as soon as every pod that does not fit an empty node lacks a resource of which no earlier
      pod gives any back; non-negative sizes are a special case. */
  lemma PackIsExact(c: Capacity, pods: seq<Pod>)
    requires forall i: nat :: i < |pods| && !Fits(c, [], pods[i]) ==> Hopeless(c, pods, i)
    ensures Pack(c, pods).Packed? <==> AllFit(c, pods)
  {
    PackIsSound(c, pods);
    if !AllFit(c, pods) {
      var i: nat :| i < |pods| && !Fits(c, [], pods[i]);
      HopelessStops(c, pods, i);
      PackFails(c, pods, i + 1);
    }
  }

  /** With a negative size, packing can succeed although a pod does not fit an empty node. */
  lemma NegativeSizeMakesRoom(a: Pod, b: Pod, d: Pod)
    requires a == Pod("a", 1, 1.0, 1.0) && b == Pod("b", 1, 0.5, -1.0) && d == Pod("d", 1, 0.25, 2.0)
    ensures Pack(Capacity(1.0, 1.0), [a, b, d]) == Packed([[a], [b, d]]) && !Fits(Capacity(1.0, 1.0), [], d)
  {
    var c := Capacity(1.0, 1.0);
    FirstPods(c, a, b);
    assert [a, b, d][..2] == [a, b];
    SecondFits(c, a, b, d);
  }

  lemma SecondFits(c: Capacity, a: Pod, b: Pod, d: Pod)
    requires c == Capacity(1.0, 1.0)
    requires a == Pod("a", 1, 1.0, 1.0) && b == Pod("b", 1, 0.5, -1.0) && d == Pod("d", 1, 0.25, 2.0)
    ensures Place(c, [[a], [b]], d) == Packed([[a], [b, d]]) && !Fits(c, [], d)
  {
    SumsAdd(c, [], a);
    SumsAdd(c, [], b);
    assert [] + [a] == [a] && [] + [b] == [b];
    assert !Fits(c, [a], d) && Fits(c, [b], d);
    assert FirstFit(c, [[a], [b]], d, 0) == 1;
    assert [b] + [d] == [b, d];
  }

  lemma FirstPods(c: Capacity, a: Pod, b: Pod)
    requires c == Capacity(1.0, 1.0) && a == Pod("a", 1, 1.0, 1.0) && b == Pod("b", 1, 0.5, -1.0)
    ensures Pack(c, [a, b]) == Packed([[a], [b]])
  {
    assert [a, b][..1] == [a] && [a][..0] == [];
    assert Pack(c, [a]) == Place(c, [], a) == Packed([[a]]);
    SumsAdd(c, [], a);
    assert [] + [a] == [a];
    assert !Fits(c, [a], b) && Fits(c, [], b);
    assert FirstFit(c, [[a]], b, 0) == 1;
  }
}
