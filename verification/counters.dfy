/**
 The counters of rpz/cmd/counter/main.go as step relations: the benchmark with its barrier, the sharded
 counter with a concurrent scan, and the channel counter. Any interleaving of the steps is a run.
 */
module Counters {

  datatype Config = Config(goros: nat, iters: nat, shards: nat)

  // ---- The benchmark: runConcurrentTest ----

  /** A goroutine: created, past ready.Done(), past the barrier with some iterations done, past done.Done(). */
  datatype Worker = Started | Ready | Working(done: nat) | Finished

  datatype Test = Test(workers: seq<Worker>, open: bool)

  /** All steps but the iterations: Open is the return of ready.Wait() and the closing of the barrier. */
  datatype TestEvent = Spawn | Arrive(w: nat) | Open | Pass(w: nat) | Done(w: nat)

  predicate Enabled(c: Config, t: Test, e: TestEvent)
  {
    match e
    case Spawn => |t.workers| < c.goros && !t.open
    case Arrive(w) => w < |t.workers| && t.workers[w] == Started
    case Open => |t.workers| == c.goros && !t.open && Started !in t.workers
    case Pass(w) => w < |t.workers| && t.open && t.workers[w] == Ready
    case Done(w) => w < |t.workers| && t.workers[w] == Working(c.iters)
  }

  function Apply(c: Config, t: Test, e: TestEvent): Test
    requires Enabled(c, t, e)
  {
    match e
    case Spawn => t.(workers := t.workers + [Started])
    case Arrive(w) => t.(workers := t.workers[w := Ready])
    case Open => t.(open := true)
    case Pass(w) => t.(workers := t.workers[w := Working(0)])
    case Done(w) => t.(workers := t.workers[w := Finished])
  }

  /** Worker w has an iteration to do. */
  predicate CanWork(c: Config, t: Test, w: nat)
  {
    w < |t.workers| && t.workers[w].Working? && t.workers[w].done < c.iters
  }

  function Work(c: Config, t: Test, w: nat): Test
    requires CanWork(c, t, w)
  {
    t.(workers := t.workers[w := Working(t.workers[w].done + 1)])
  }

  /** done.Wait() has returned. */
  predicate AllFinished(t: Test)
  {
    t.open && forall w :: 0 <= w < |t.workers| ==> t.workers[w] == Finished
  }

  ghost predicate WorkerOk(c: Config, open: bool, w: Worker)
  {
    && (!open ==> w == Started || w == Ready)
    && (open ==> w != Started)
    && (w.Working? ==> w.done <= c.iters)
  }

  ghost predicate TestInv(c: Config, t: Test)
  {
    && |t.workers| <= c.goros && (t.open ==> |t.workers| == c.goros)
    && forall w {:trigger t.workers[w]} :: 0 <= w < |t.workers| ==> WorkerOk(c, t.open, t.workers[w])
  }

  function Items(c: Config, w: Worker): nat
  {
    match w
    case Started => 0
    case Ready => 0
    case Working(done) => done
    case Finished => c.iters
  }

  /** The iterations done by all workers. */
  function Progress(c: Config, ws: seq<Worker>): nat
  {
    if ws == [] then 0 else Progress(c, ws[..|ws| - 1]) + Items(c, ws[|ws| - 1])
  }

  lemma {:induction false} ProgressUpdate(c: Config, ws: seq<Worker>, k: nat, w: Worker)
    requires k < |ws|
    ensures Progress(c, ws[k := w]) == Progress(c, ws) - Items(c, ws[k]) + Items(c, w)
  {
    var n := |ws| - 1;
    if k == n {
      assert ws[k := w][..n] == ws[..n];
    } else {
      assert ws[k := w][..n] == ws[..n][k := w];
      ProgressUpdate(c, ws[..n], k, w);
    }
  }

  lemma {:induction false} ProgressWhenFinished(c: Config, ws: seq<Worker>)
    requires forall w :: 0 <= w < |ws| ==> ws[w] == Finished
    ensures Progress(c, ws) == |ws| * c.iters
  {
    if ws != [] {
      ProgressWhenFinished(c, ws[..|ws| - 1]);
      assert |ws| * c.iters == (|ws| - 1) * c.iters + c.iters;
    }
  }

  lemma {:induction false} NoProgress(c: Config, ws: seq<Worker>)
    requires forall w :: 0 <= w < |ws| ==> ws[w] == Started || ws[w] == Ready
    ensures Progress(c, ws) == 0
  {
    if ws != [] {
      NoProgress(c, ws[..|ws| - 1]);
    }
  }

  /** A step of the benchmark itself keeps the invariant and does no iteration. */
  lemma TestStepKeepsInv(c: Config, t: Test, e: TestEvent)
    requires TestInv(c, t) && Enabled(c, t, e)
    ensures TestInv(c, Apply(c, t, e))
    ensures Progress(c, Apply(c, t, e).workers) == Progress(c, t.workers)
    ensures AllFinished(t) ==> Apply(c, t, e) == t
  {
    match e
    case Spawn => assert (t.workers + [Started])[..|t.workers|] == t.workers;
    case Arrive(w) => ProgressUpdate(c, t.workers, w, Ready);
    case Open =>
    case Pass(w) => ProgressUpdate(c, t.workers, w, Working(0));
    case Done(w) => ProgressUpdate(c, t.workers, w, Finished);
  }

  lemma WorkKeepsInv(c: Config, t: Test, w: nat)
    requires TestInv(c, t) && CanWork(c, t, w)
    ensures TestInv(c, Work(c, t, w)) && t.open && !AllFinished(t)
    ensures Progress(c, Work(c, t, w).workers) == Progress(c, t.workers) + 1
  {
    ProgressUpdate(c, t.workers, w, Working(t.workers[w].done + 1));
  }

  /** Until all workers are finished, the benchmark or one of its workers can step. */
  lemma TestNotStuck(c: Config, t: Test)
    requires TestInv(c, t) && !AllFinished(t)
    ensures (exists e :: Enabled(c, t, e)) || exists w :: CanWork(c, t, w)
  {
    if t.open {
      var w :| 0 <= w < |t.workers| && t.workers[w] != Finished;
      if t.workers[w] == Ready {
        assert Enabled(c, t, Pass(w));
      } else if t.workers[w] == Working(c.iters) {
        assert Enabled(c, t, Done(w));
      } else {
        assert CanWork(c, t, w);
      }
    } else if Started in t.workers {
      var w :| 0 <= w < |t.workers| && t.workers[w] == Started;
      assert Enabled(c, t, Arrive(w));
    } else {
      assert Enabled(c, t, if |t.workers| < c.goros then Spawn else Open);
    }
  }

  // Every step of the benchmark and of a worker ages it by one, up to a bound.

  function WorkerAge(c: Config, w: Worker): nat
  {
    match w
    case Started => 1
    case Ready => 2
    case Working(done) => 3 + done
    case Finished => 4 + c.iters
  }

  function Ages(c: Config, ws: seq<Worker>): nat
  {
    if ws == [] then 0 else Ages(c, ws[..|ws| - 1]) + WorkerAge(c, ws[|ws| - 1])
  }

  /** Steps taken by the benchmark and its workers so far. */
  function TestAge(c: Config, t: Test): nat
  {
    Ages(c, t.workers) + if t.open then 1 else 0
  }

  lemma {:induction false} AgesUpdate(c: Config, ws: seq<Worker>, k: nat, w: Worker)
    requires k < |ws|
    ensures Ages(c, ws[k := w]) == Ages(c, ws) - WorkerAge(c, ws[k]) + WorkerAge(c, w)
  {
    var n := |ws| - 1;
    if k == n {
      assert ws[k := w][..n] == ws[..n];
    } else {
      assert ws[k := w][..n] == ws[..n][k := w];
      AgesUpdate(c, ws[..n], k, w);
    }
  }

  lemma {:induction false} AgesBound(c: Config, t: Test, n: nat)
    requires TestInv(c, t) && n <= |t.workers|
    ensures Ages(c, t.workers[..n]) <= n * (c.iters + 4)
  {
    if n > 0 {
      AgesBound(c, t, n - 1);
      assert t.workers[..n][..n - 1] == t.workers[..n - 1];
      assert n * (c.iters + 4) == (n - 1) * (c.iters + 4) + c.iters + 4;
      assert WorkerOk(c, t.open, t.workers[n - 1]);
    }
  }

  lemma TestAgeBound(c: Config, t: Test)
    requires TestInv(c, t)
    ensures TestAge(c, t) <= c.goros * (c.iters + 4) + 1
  {
    AgesBound(c, t, |t.workers|);
    assert t.workers[..|t.workers|] == t.workers;
    assert |t.workers| * (c.iters + 4) <= c.goros * (c.iters + 4);
  }

  lemma TestStepAges(c: Config, t: Test, e: TestEvent)
    requires TestInv(c, t) && Enabled(c, t, e)
    ensures TestAge(c, Apply(c, t, e)) == TestAge(c, t) + 1
  {
    match e
    case Spawn => assert (t.workers + [Started])[..|t.workers|] == t.workers;
    case Arrive(w) => AgesUpdate(c, t.workers, w, Ready);
    case Open =>
    case Pass(w) => AgesUpdate(c, t.workers, w, Working(0));
    case Done(w) => AgesUpdate(c, t.workers, w, Finished);
  }

  lemma WorkAges(c: Config, t: Test, w: nat)
    requires TestInv(c, t) && CanWork(c, t, w)
    ensures TestAge(c, Work(c, t, w)) == TestAge(c, t) + 1
  {
    AgesUpdate(c, t.workers, w, Working(t.workers[w].done + 1));
  }

  // ---- The sharded counter ----

  function Sum(s: seq<nat>): nat
  {
    if s == [] then 0 else Sum(s[..|s| - 1]) + s[|s| - 1]
  }

  /** One call of Value: the next shard to load, the sum so far, the total when the call began, and whether it
      began after done.Wait(). */
  datatype Scan = Idle | Scanning(next: nat, sum: nat, low: nat, final: bool)

  datatype Sharded = Sharded(test: Test, shards: seq<nat>, scan: Scan)

  datatype ShardedEvent = Step(e: TestEvent) | Incr(w: nat) | StartScan | Load

  function InitialSharded(c: Config): Sharded
  {
    Sharded(Test([], false), seq(c.shards, _ => 0), Idle)
  }

  predicate ShardedEnabled(c: Config, s: Sharded, e: ShardedEvent)
  {
    match e
    case Step(te) => Enabled(c, s.test, te)
    case Incr(w) => CanWork(c, s.test, w) && 0 < c.shards == |s.shards|
    case StartScan => s.scan.Idle? || s.scan.next == |s.shards|
    case Load => s.scan.Scanning? && s.scan.next < |s.shards|
  }

  /** The shard of an iteration of a worker. */
  function ShardOf(c: Config, w: nat, i: nat): (k: nat)
    requires c.shards > 0
    ensures k < c.shards
  {
    (w * c.iters + i) % c.shards
  }

  function ShardedApply(c: Config, s: Sharded, e: ShardedEvent): Sharded
    requires ShardedEnabled(c, s, e)
  {
    match e
    case Step(te) => s.(test := Apply(c, s.test, te))
    case Incr(w) =>
      var k := ShardOf(c, w, s.test.workers[w].done);
      s.(test := Work(c, s.test, w), shards := s.shards[k := s.shards[k] + 1])
    case StartScan => s.(scan := Scanning(0, 0, Sum(s.shards), AllFinished(s.test)))
    case Load => s.(scan := s.scan.(next := s.scan.next + 1, sum := s.scan.sum + s.shards[s.scan.next]))
  }

  /** What has been loaded is not above the loaded shards, and with the shards still to come not below the
      total at the start. */
  ghost predicate ScanInv(c: Config, s: Sharded)
  {
    s.scan.Scanning? ==>
      && s.scan.next <= |s.shards|
      && s.scan.sum <= Sum(s.shards[..s.scan.next])
      && s.scan.low + Sum(s.shards[..s.scan.next]) <= s.scan.sum + Sum(s.shards)
      && (s.scan.final ==> AllFinished(s.test) && s.scan.low == Sum(s.shards))
  }

  ghost predicate ShardedInv(c: Config, s: Sharded)
  {
    && (c.shards == 0 ==> c.goros == 0)
    && TestInv(c, s.test) && |s.shards| == c.shards
    && Sum(s.shards) == Progress(c, s.test.workers) && ScanInv(c, s)
  }

  lemma {:induction false} SumUpdate(s: seq<nat>, k: nat)
    requires k < |s|
    ensures Sum(s[k := s[k] + 1]) == Sum(s) + 1
  {
    var n := |s| - 1;
    if k == n {
      assert s[k := s[k] + 1][..n] == s[..n];
    } else {
      assert s[k := s[k] + 1][..n] == s[..n][k := s[k] + 1];
      SumUpdate(s[..n], k);
    }
  }

  lemma PrefixUpdate(s: seq<nat>, k: nat, n: nat)
    requires k < |s| && n <= |s|
    ensures Sum(s[k := s[k] + 1][..n]) == Sum(s[..n]) + if k < n then 1 else 0
  {
    if k < n {
      assert s[k := s[k] + 1][..n] == s[..n][k := s[k] + 1];
      SumUpdate(s[..n], k);
    } else {
      assert s[k := s[k] + 1][..n] == s[..n];
    }
  }

  lemma IncrKeepsInv(c: Config, s: Sharded, w: nat)
    requires ShardedInv(c, s) && ShardedEnabled(c, s, Incr(w))
    ensures ShardedInv(c, ShardedApply(c, s, Incr(w)))
  {
    WorkKeepsInv(c, s.test, w);
    var k := ShardOf(c, w, s.test.workers[w].done);
    SumUpdate(s.shards, k);
    if s.scan.Scanning? {
      PrefixUpdate(s.shards, k, s.scan.next);
    }
  }

  lemma ShardedStepKeepsInv(c: Config, s: Sharded, e: ShardedEvent)
    requires ShardedInv(c, s) && ShardedEnabled(c, s, e)
    ensures ShardedInv(c, ShardedApply(c, s, e))
  {
    match e
    case Step(te) => TestStepKeepsInv(c, s.test, te);
    case Incr(w) => IncrKeepsInv(c, s, w);
    case StartScan =>
    case Load =>
      var n := s.scan.next;
      assert s.shards[..n + 1][..n] == s.shards[..n];
  }

  /** A goroutine with an iteration to do finds its shard: no division by zero, no index out of range. */
  lemma IncrIsSafe(c: Config, s: Sharded, w: nat)
    requires ShardedInv(c, s) && CanWork(c, s.test, w)
    ensures ShardedEnabled(c, s, Incr(w)) && ShardOf(c, w, s.test.workers[w].done) < |s.shards|
  {
  }

  /** The steps lead from s to s'. */
  ghost predicate ShardedRun(c: Config, s: Sharded, es: seq<ShardedEvent>, s': Sharded)
    decreases |es|
  {
    if es == [] then s == s'
    else ShardedEnabled(c, s, es[0]) && ShardedRun(c, ShardedApply(c, s, es[0]), es[1..], s')
  }

  /** The number of steps that are not part of a Value call. */
  function Steps(es: seq<ShardedEvent>): nat
  {
    if es == [] then 0 else (if es[0].Step? || es[0].Incr? then 1 else 0) + Steps(es[1..])
  }

  lemma ShardedStepAges(c: Config, s: Sharded, e: ShardedEvent)
    requires ShardedInv(c, s) && ShardedEnabled(c, s, e)
    ensures TestAge(c, ShardedApply(c, s, e).test) == TestAge(c, s.test) + (if e.Step? || e.Incr? then 1 else 0)
  {
    match e
    case Step(te) => TestStepAges(c, s.test, te);
    case Incr(w) => WorkAges(c, s.test, w);
    case StartScan =>
    case Load =>
  }

  lemma {:induction false} ShardedRunKeepsInv(c: Config, s: Sharded, es: seq<ShardedEvent>, s': Sharded)
    requires ShardedInv(c, s) && ShardedRun(c, s, es, s')
    ensures ShardedInv(c, s') && TestAge(c, s'.test) == TestAge(c, s.test) + Steps(es)
    decreases |es|
  {
    if es != [] {
      ShardedStepKeepsInv(c, s, es[0]);
      ShardedStepAges(c, s, es[0]);
      ShardedRunKeepsInv(c, ShardedApply(c, s, es[0]), es[1..], s');
    }
  }

  lemma {:induction false} ZeroShards(s: seq<nat>)
    requires forall k :: 0 <= k < |s| ==> s[k] == 0
    ensures Sum(s) == 0
  {
    if s != [] {
      ZeroShards(s[..|s| - 1]);
    }
  }

  lemma InitialShardedInv(c: Config)
    requires c.shards == 0 ==> c.goros == 0
    ensures ShardedInv(c, InitialSharded(c))
  {
    ZeroShards(InitialSharded(c).shards);
  }

  /** In every interleaving: nothing is counted before all goroutines are ready and the barrier is closed; when
      all are done the total is exact; and a Value call that has loaded all shards returns a sum between the
      total at its start and the total at its end, hence the exact total if it began after the end.  The
      benchmark cannot get stuck and takes a bounded number of steps, and every increment finds its shard. */
  lemma ShardedTotals(c: Config, es: seq<ShardedEvent>, s: Sharded)
    requires c.shards == 0 ==> c.goros == 0
    requires ShardedRun(c, InitialSharded(c), es, s)
    ensures Sum(s.shards) > 0 ==> s.test.open && |s.test.workers| == c.goros && Started !in s.test.workers
    ensures AllFinished(s.test) ==> Sum(s.shards) == c.goros * c.iters
    ensures s.scan.Scanning? && s.scan.next == |s.shards| ==>
              && s.scan.low <= s.scan.sum <= Sum(s.shards)
              && (s.scan.final ==> s.scan.sum == c.goros * c.iters)
    ensures Steps(es) <= c.goros * (c.iters + 4) + 1
    ensures AllFinished(s.test) || exists e: ShardedEvent :: (e.Step? || e.Incr?) && ShardedEnabled(c, s, e)
    ensures forall w: nat :: CanWork(c, s.test, w) ==> ShardedEnabled(c, s, Incr(w))
  {
    InitialShardedInv(c);
    ShardedRunKeepsInv(c, InitialSharded(c), es, s);
    if !s.test.open {
      NoProgress(c, s.test.workers);
    }
    if AllFinished(s.test) {
      ProgressWhenFinished(c, s.test.workers);
    }
    assert s.shards[..|s.shards|] == s.shards;
    TestAgeBound(c, s.test);
    ShardedNotStuck(c, s);
    forall w: nat | CanWork(c, s.test, w)
      ensures ShardedEnabled(c, s, Incr(w))
    {
      IncrIsSafe(c, s, w);
    }
  }

  /** Until all goroutines are done, one of them or the benchmark can step. */
  lemma ShardedNotStuck(c: Config, s: Sharded)
    requires ShardedInv(c, s)
    ensures AllFinished(s.test) || exists e: ShardedEvent :: (e.Step? || e.Incr?) && ShardedEnabled(c, s, e)
  {
    if !AllFinished(s.test) {
      TestNotStuck(c, s.test);
      if te :| Enabled(c, s.test, te) {
        assert ShardedEnabled(c, s, Step(te));
      } else {
        var w :| CanWork(c, s.test, w);
        IncrIsSafe(c, s, w);
      }
    }
  }

  // ---- The channel counter ----

  /** The accumulating goroutine: in its loop, at the send of the result, or ended. */
  datatype Accumulator = Receiving(total: nat) | Sending(total: nat) | Ended

  /** The main goroutine: in runConcurrentTest, after close(counterCh), or with the result. */
  datatype MainPhase = Testing | Closed | Returned(value: nat)

  datatype Channel = Channel(test: Test, acc: Accumulator, main: MainPhase)

  /** The channels are unbuffered, so a send and its receive are one step. */
  datatype ChannelEvent = TestStep(e: TestEvent) | Send(w: nat) | Close | EndLoop | Deliver

  function InitialChannel(): Channel
  {
    Channel(Test([], false), Receiving(0), Testing)
  }

  predicate ChannelEnabled(c: Config, s: Channel, e: ChannelEvent)
  {
    match e
    case TestStep(te) => Enabled(c, s.test, te)
    case Send(w) => CanWork(c, s.test, w) && s.acc.Receiving?
    case Close => s.main == Testing && AllFinished(s.test)
    case EndLoop => s.main != Testing && s.acc.Receiving?
    case Deliver => s.main == Closed && s.acc.Sending?
  }

  function ChannelApply(c: Config, s: Channel, e: ChannelEvent): Channel
    requires ChannelEnabled(c, s, e)
  {
    match e
    case TestStep(te) => s.(test := Apply(c, s.test, te))
    case Send(w) => s.(test := Work(c, s.test, w), acc := Receiving(s.acc.total + 1))
    case Close => s.(main := Closed)
    case EndLoop => s.(acc := Sending(s.acc.total))
    case Deliver => s.(main := Returned(s.acc.total), acc := Ended)
  }

  ghost predicate ChannelInv(c: Config, s: Channel)
  {
    && TestInv(c, s.test)
    && (s.main != Testing ==> AllFinished(s.test))
    && (s.main == Testing ==> s.acc.Receiving?)
    && (s.acc == Ended <==> s.main.Returned?)
    && (if s.main.Returned? then s.main.value else if s.acc == Ended then 0 else s.acc.total)
       == Progress(c, s.test.workers)
  }

  lemma ChannelStepKeepsInv(c: Config, s: Channel, e: ChannelEvent)
    requires ChannelInv(c, s) && ChannelEnabled(c, s, e)
    ensures ChannelInv(c, ChannelApply(c, s, e))
  {
    match e
    case TestStep(te) => TestStepKeepsInv(c, s.test, te);
    case Send(w) => WorkKeepsInv(c, s.test, w);
    case Close =>
    case EndLoop =>
    case Deliver =>
  }

  /** No send on the closed channel, which would panic: a goroutine with an iteration to do finds the channel
      open and the accumulator in its loop. */
  lemma SendIsSafe(c: Config, s: Channel, w: nat)
    requires ChannelInv(c, s) && CanWork(c, s.test, w)
    ensures s.main == Testing && ChannelEnabled(c, s, Send(w))
  {
    WorkKeepsInv(c, s.test, w);
  }

  /** The counter cannot deadlock: until the result is returned, some goroutine can step. */
  lemma ChannelNotStuck(c: Config, s: Channel)
    requires ChannelInv(c, s) && !s.main.Returned?
    ensures exists e :: ChannelEnabled(c, s, e)
  {
    if s.main == Closed {
      assert ChannelEnabled(c, s, if s.acc.Receiving? then EndLoop else Deliver);
    } else if AllFinished(s.test) {
      assert ChannelEnabled(c, s, Close);
    } else {
      TestNotStuck(c, s.test);
      if te :| Enabled(c, s.test, te) {
        assert ChannelEnabled(c, s, TestStep(te));
      } else {
        var w :| CanWork(c, s.test, w);
        assert ChannelEnabled(c, s, Send(w));
      }
    }
  }

  // The channel counter ages by one with every step.

  function Age(c: Config, s: Channel): nat
  {
    TestAge(c, s.test)
    + (match s.main case Testing => 0 case Closed => 1 case Returned(_) => 2)
    + if s.acc.Receiving? then 0 else 1
  }

  lemma StepAges(c: Config, s: Channel, e: ChannelEvent)
    requires ChannelInv(c, s) && ChannelEnabled(c, s, e)
    ensures Age(c, ChannelApply(c, s, e)) == Age(c, s) + 1
  {
    match e
    case TestStep(te) => TestStepAges(c, s.test, te);
    case Send(w) => WorkAges(c, s.test, w);
    case Close =>
    case EndLoop =>
    case Deliver =>
  }

  ghost predicate ChannelRun(c: Config, s: Channel, es: seq<ChannelEvent>, s': Channel)
    decreases |es|
  {
    if es == [] then s == s'
    else ChannelEnabled(c, s, es[0]) && ChannelRun(c, ChannelApply(c, s, es[0]), es[1..], s')
  }

  lemma {:induction false} ChannelRunKeepsInv(c: Config, s: Channel, es: seq<ChannelEvent>, s': Channel)
    requires ChannelInv(c, s) && ChannelRun(c, s, es, s')
    ensures ChannelInv(c, s') && Age(c, s') == Age(c, s) + |es|
    decreases |es|
  {
    if es != [] {
      ChannelStepKeepsInv(c, s, es[0]);
      StepAges(c, s, es[0]);
      ChannelRunKeepsInv(c, ChannelApply(c, s, es[0]), es[1..], s');
    }
  }

  lemma AgeBound(c: Config, s: Channel)
    requires ChannelInv(c, s)
    ensures Age(c, s) <= c.goros * (c.iters + 4) + 4
  {
    TestAgeBound(c, s.test);
  }

  /** In every interleaving the channel is closed only after all sends, the value returned is the number of all
      iterations, no run is longer than the bound, a run that cannot go on has returned the value, and no send
      waits or panics. */
  lemma ChannelResult(c: Config, es: seq<ChannelEvent>, s: Channel)
    requires ChannelRun(c, InitialChannel(), es, s)
    ensures s.main != Testing ==> AllFinished(s.test)
    ensures s.main.Returned? ==> s.main.value == c.goros * c.iters
    ensures |es| <= c.goros * (c.iters + 4) + 4
    ensures s.main.Returned? || exists e :: ChannelEnabled(c, s, e)
    ensures forall w: nat :: CanWork(c, s.test, w) ==> s.main == Testing && ChannelEnabled(c, s, Send(w))
  {
    ChannelRunKeepsInv(c, InitialChannel(), es, s);
    forall w: nat | CanWork(c, s.test, w)
      ensures s.main == Testing && ChannelEnabled(c, s, Send(w))
    {
      SendIsSafe(c, s, w);
    }
    AgeBound(c, s);
    if AllFinished(s.test) {
      ProgressWhenFinished(c, s.test.workers);
    }
    if !s.main.Returned? {
      ChannelNotStuck(c, s);
    }
  }
}
