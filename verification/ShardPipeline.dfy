/** Handling one shard: a producer, five consumers and a collector around two bounded
    channels, and the main goroutine that waits for them and closes the second channel. */
module ShardPipeline {
  import opened Prelude

  const CAPACITY := 1000
  const CONSUMERS := 5

  /** One identity of one cluster; `lookupFails` is what its registry lookup will say, and
      `lastPutFails` what the last of the connection-settings puts that follow will. */
  datatype Task = Task(cluster: string, identity: string, lookupFails: bool, lastPutFails: bool)

  /** The producer keeps the error of the last put in the variable it sends. */
  predicate Skips(t: Task) {
    t.lookupFails || t.lastPutFails
  }

  datatype Identity = Identity(name: string, lookupFails: bool, lastPutFails: bool)

  datatype ClusterShard = ClusterShard(cluster: string, identities: seq<Identity>)

  /** What travels through the channels. */
  datatype Data = Data(task: Task, failed: bool)

  function TaskOf(cluster: string, i: Identity): Task {
    Task(cluster, i.name, i.lookupFails, i.lastPutFails)
  }

  function ClusterTasks(c: ClusterShard): seq<Task> {
    seq(|c.identities|, i requires 0 <= i < |c.identities| =>
      TaskOf(c.cluster, c.identities[i]))
  }

  /** The producer's two nested loops, in order. */
  function ShardTasks(shard: seq<ClusterShard>): seq<Task> {
    if shard == [] then [] else ClusterTasks(shard[0]) + ShardTasks(shard[1..])
  }

  lemma {:induction false} ShardTasksAppend(a: seq<ClusterShard>, c: ClusterShard)
    ensures ShardTasks(a + [c]) == ShardTasks(a) + ClusterTasks(c)
  {
    if a != [] {
      assert (a + [c])[1..] == a[1..] + [c];
      ShardTasksAppend(a[1..], c);
    }
  }

  /** One task for each identity of each cluster, in order. */
  lemma OneTaskPerIdentity(shard: seq<ClusterShard>, cluster: string, identities: seq<Identity>, x: Identity)
    ensures ShardTasks([]) == [] && ShardTasks(shard + [ClusterShard(cluster, [])]) == ShardTasks(shard)
    ensures ShardTasks(shard + [ClusterShard(cluster, identities + [x])]) ==
            ShardTasks(shard + [ClusterShard(cluster, identities)]) + [Task(cluster, x.name, x.lookupFails, x.lastPutFails)]
  {
    var some, more := ClusterShard(cluster, identities), ClusterShard(cluster, identities + [x]);
    ShardTasksAppend(shard, ClusterShard(cluster, []));
    ShardTasksAppend(shard, some);
    ShardTasksAppend(shard, more);
    assert ClusterTasks(more) == ClusterTasks(some) + [Task(cluster, x.name, x.lookupFails, x.lastPutFails)];
  }

  /** What the producer sends, one message per identity. It carries an error for a failed
      lookup, and also when the lookup succeeded but the last cache put did not. */
  method Messages(shard: seq<ClusterShard>) returns (messages: seq<Data>)
    ensures |messages| == |ShardTasks(shard)|
    ensures forall k :: 0 <= k < |messages| ==>
      var t := ShardTasks(shard)[k];
      messages[k] == Data(t, t.lookupFails || t.lastPutFails)
  {
    messages := [];
    ghost var sent: seq<Task> := [];
    for i := 0 to |shard|
      invariant sent == ShardTasks(shard[..i])
      invariant |messages| == |sent|
      invariant forall k :: 0 <= k < |messages| ==> messages[k] == Data(sent[k], Skips(sent[k]))
    {
      for j := 0 to |shard[i].identities|
        invariant sent == ShardTasks(shard[..i]) + ClusterTasks(shard[i])[..j]
        invariant |messages| == |sent|
        invariant forall k :: 0 <= k < |messages| ==> messages[k] == Data(sent[k], Skips(sent[k]))
      {
        var identity := shard[i].identities[j];
        var task := TaskOf(shard[i].cluster, identity);
        var failed := identity.lookupFails;
        if !failed {
          failed := identity.lastPutFails;
        }
        sent := sent + [task];
        messages := messages + [Data(task, failed)];
      }
      ShardTasksAppend(shard[..i], shard[i]);
      assert shard[..i + 1] == shard[..i] + [shard[i]];
    }
    assert shard[..|shard|] == shard;
  }

  datatype Producer = Producing | Signalled | Closed
  datatype Consumer = Waiting | Working(data: Data) | Exited
  datatype Main = AwaitProducer | AwaitConsumers | AwaitResults | Returned

  datatype State = State(
    tasks: seq<Task>,           // not yet produced
    producer: Producer,         // Signalled: producerWG done; Closed: jobs channel closed
    jobs: seq<Data>,
    consumers: seq<Consumer>,
    results: seq<Data>,
    resultsClosed: bool,
    collected: seq<Data>,
    written: seq<Task>,         // whose entries the consumers have set out to write
    collectorDone: bool,
    main: Main)

  datatype Step =
    | Produce
    | SignalProduced
    | CloseJobs
    | Receive(i: nat)
    | Send(i: nat, outcome: bool)   // a message with an error passes; else its entries are written, `outcome` if one fails
    | Exit(i: nat)
    | Collect
    | CollectorExit
    | MainSeesProducer
    | MainClosesResults
    | MainReturns

  predicate SendsOnJobs(s: Step) { s.Produce? }
  predicate SendsOnResults(s: Step) { s.Send? }

  predicate Enabled(st: State, s: Step) {
    match s
    case Produce => st.tasks != [] && |st.jobs| < CAPACITY
    case SignalProduced => st.tasks == [] && st.producer.Producing?
    case CloseJobs => st.producer.Signalled?
    case Receive(i) => i < |st.consumers| && st.consumers[i].Waiting? && st.jobs != []
    case Send(i, _) => i < |st.consumers| && st.consumers[i].Working? && |st.results| < CAPACITY
    case Exit(i) => i < |st.consumers| && st.consumers[i].Waiting? && st.jobs == [] && st.producer.Closed?
    case Collect => !st.collectorDone && st.results != []
    case CollectorExit => !st.collectorDone && st.results == [] && st.resultsClosed
    case MainSeesProducer => st.main.AwaitProducer? && !st.producer.Producing?
    case MainClosesResults => st.main.AwaitConsumers? && forall i :: 0 <= i < |st.consumers| ==> st.consumers[i].Exited?
    case MainReturns => st.main.AwaitResults? && st.collectorDone
  }

  function Take(st: State, s: Step): State
    requires Enabled(st, s)
  {
    match s
    case Produce =>
      st.(tasks := st.tasks[1..], jobs := st.jobs + [Data(st.tasks[0], Skips(st.tasks[0]))])
    case SignalProduced => st.(producer := Signalled)
    case CloseJobs => st.(producer := Closed)
    case Receive(i) => st.(jobs := st.jobs[1..], consumers := st.consumers[i := Working(st.jobs[0])])
    case Send(i, outcome) =>
      var d := st.consumers[i].data;
      st.(results := st.results + [d.(failed := d.failed || outcome)], consumers := st.consumers[i := Waiting],
          written := if d.failed then st.written else st.written + [d.task])
    case Exit(i) => st.(consumers := st.consumers[i := Exited])
    case Collect => st.(results := st.results[1..], collected := st.collected + [st.results[0]])
    case CollectorExit => st.(collectorDone := true)
    case MainSeesProducer => st.(main := AwaitConsumers)
    case MainClosesResults => st.(main := AwaitResults, resultsClosed := true)
    case MainReturns => st.(main := Returned)
  }

  function Start(shard: seq<ClusterShard>): State {
    State(ShardTasks(shard), Producing, [], seq(CONSUMERS, _ => Waiting), [], false, [], [], false, AwaitProducer)
  }

  // ----- where the tasks are ---------------------------------------------------------------

  function TasksOf(ds: seq<Data>): seq<Task> {
    seq(|ds|, i requires 0 <= i < |ds| => ds[i].task)
  }

  function Held(c: Consumer, t: Task): nat {
    if c.Working? && c.data.task == t then 1 else 0
  }

  function InHand(cs: seq<Consumer>, t: Task): nat {
    if cs == [] then 0 else Held(cs[0], t) + InHand(cs[1..], t)
  }

  /** How often a task occurs anywhere in the pipeline. */
  function Copies(st: State, t: Task): nat {
    multiset(st.tasks)[t] + multiset(TasksOf(st.jobs))[t] + InHand(st.consumers, t) +
    multiset(TasksOf(st.results))[t] + multiset(TasksOf(st.collected))[t]
  }

  lemma {:induction false} InHandUpdate(cs: seq<Consumer>, i: nat, c: Consumer, t: Task)
    requires i < |cs|
    ensures InHand(cs[i := c], t) + Held(cs[i], t) == InHand(cs, t) + Held(c, t)
  {
    if i == 0 {
      assert cs[0 := c][1..] == cs[1..];
    } else {
      assert cs[i := c][1..] == cs[1..][i - 1 := c];
      InHandUpdate(cs[1..], i - 1, c, t);
    }
  }

  lemma TasksOfAppend(ds: seq<Data>, d: Data)
    ensures multiset(TasksOf(ds + [d])) == multiset(TasksOf(ds)) + multiset{d.task}
  {
    assert TasksOf(ds + [d]) == TasksOf(ds) + [d.task];
  }

  lemma TasksOfHead(ds: seq<Data>)
    requires ds != []
    ensures multiset(TasksOf(ds)) == multiset{ds[0].task} + multiset(TasksOf(ds[1..]))
  {
    assert TasksOf(ds) == [ds[0].task] + TasksOf(ds[1..]);
  }

  lemma {:induction false} NothingInHand(cs: seq<Consumer>, t: Task)
    requires forall i :: 0 <= i < |cs| ==> !cs[i].Working?
    ensures InHand(cs, t) == 0
  {
    if cs != [] {
      NothingInHand(cs[1..], t);
    }
  }

  lemma ProduceConserves(st: State, t: Task)
    requires Enabled(st, Produce)
    ensures Copies(Take(st, Produce), t) == Copies(st, t)
  {
    assert st.tasks == [st.tasks[0]] + st.tasks[1..];
    TasksOfAppend(st.jobs, Data(st.tasks[0], Skips(st.tasks[0])));
  }

  lemma ReceiveConserves(st: State, i: nat, t: Task)
    requires Enabled(st, Receive(i))
    ensures Copies(Take(st, Receive(i)), t) == Copies(st, t)
  {
    TasksOfHead(st.jobs);
    InHandUpdate(st.consumers, i, Working(st.jobs[0]), t);
  }

  lemma SendConserves(st: State, i: nat, outcome: bool, t: Task)
    requires Enabled(st, Send(i, outcome))
    ensures Copies(Take(st, Send(i, outcome)), t) == Copies(st, t)
  {
    var d := st.consumers[i].data;
    TasksOfAppend(st.results, d.(failed := d.failed || outcome));
    InHandUpdate(st.consumers, i, Waiting, t);
  }

  lemma CollectConserves(st: State, t: Task)
    requires Enabled(st, Collect)
    ensures Copies(Take(st, Collect), t) == Copies(st, t)
  {
    TasksOfHead(st.results);
    TasksOfAppend(st.collected, st.results[0]);
  }

  /** Every step moves tasks, none creates, copies or loses one. */
  lemma StepConserves(st: State, s: Step, t: Task)
    requires Enabled(st, s)
    ensures Copies(Take(st, s), t) == Copies(st, t)
  {
    match s
    case Produce => ProduceConserves(st, t);
    case Receive(i) => ReceiveConserves(st, i, t);
    case Send(i, outcome) => SendConserves(st, i, outcome, t);
    case Exit(i) => InHandUpdate(st.consumers, i, Exited, t);
    case Collect => CollectConserves(st, t);
    case _ =>
  }

  // ----- the closing protocol ----------------------------------------------------------------

  /** A skipped task is reported as failed. */
  predicate Reported(ds: seq<Data>) {
    forall i :: 0 <= i < |ds| && Skips(ds[i].task) ==> ds[i].failed
  }

  /** Before the writes nothing else is. */
  predicate Marked(ds: seq<Data>) {
    forall i :: 0 <= i < |ds| ==> (ds[i].failed <==> Skips(ds[i].task))
  }

  predicate Inv(st: State) {
    && |st.consumers| == CONSUMERS
    && (!st.producer.Producing? ==> st.tasks == [])
    && (forall i :: 0 <= i < |st.consumers| && st.consumers[i].Exited? ==> st.producer.Closed? && st.jobs == [])
    && (st.main.AwaitProducer? || !st.producer.Producing?)
    && (st.resultsClosed <==> st.main.AwaitResults? || st.main.Returned?)
    && (st.resultsClosed ==> forall i :: 0 <= i < |st.consumers| ==> st.consumers[i].Exited?)
    && (st.collectorDone ==> st.resultsClosed && st.results == [])
    && (st.main.Returned? ==> st.collectorDone)
    && Marked(st.jobs) && Reported(st.results) && Reported(st.collected)
    && (forall i :: 0 <= i < |st.consumers| && st.consumers[i].Working? ==> Marked([st.consumers[i].data]))
  }

  lemma StepKeepsInv(st: State, s: Step)
    requires Inv(st) && Enabled(st, s)
    ensures Inv(Take(st, s))
  {
    match s
    case Send(i, outcome) =>
      assert Marked([st.consumers[i].data]);
      assert [st.consumers[i].data][0] == st.consumers[i].data;
    case _ =>
  }

  /** A send never meets a closed channel, and no channel is closed twice. */
  lemma SendsMeetOpenChannels(st: State, s: Step)
    requires Inv(st) && Enabled(st, s)
    ensures SendsOnJobs(s) || s.CloseJobs? ==> !st.producer.Closed?
    ensures SendsOnResults(s) || s.MainClosesResults? ==> !st.resultsClosed
  {
  }

  // ----- runs ----------------------------------------------------------------------------------

  ghost predicate IsRun(states: seq<State>, steps: seq<Step>, shard: seq<ClusterShard>) {
    && |states| == |steps| + 1
    && states[0] == Start(shard)
    && forall i :: 0 <= i < |steps| ==> Enabled(states[i], steps[i]) && states[i + 1] == Take(states[i], steps[i])
  }

  lemma {:induction false} RunInv(states: seq<State>, steps: seq<Step>, shard: seq<ClusterShard>, i: nat)
    requires IsRun(states, steps, shard) && i < |states|
    ensures Inv(states[i])
    ensures forall t :: Copies(states[i], t) == multiset(ShardTasks(shard))[t]
  {
    if i == 0 {
      forall t {
        NothingInHand(states[0].consumers, t);
      }
    } else {
      RunInv(states, steps, shard, i - 1);
      StepKeepsInv(states[i - 1], steps[i - 1]);
      forall t
        ensures Copies(states[i], t) == Copies(states[i - 1], t)
      {
        StepConserves(states[i - 1], steps[i - 1], t);
      }
    }
  }

  /** What has been written: one entry set for each result that is not of a skipped task. */
  predicate WritesMatch(st: State, t: Task) {
    multiset(st.written)[t] ==
      if Skips(t) then 0 else multiset(TasksOf(st.results))[t] + multiset(TasksOf(st.collected))[t]
  }

  lemma StepKeepsWrites(st: State, s: Step, t: Task)
    requires Inv(st) && Enabled(st, s) && WritesMatch(st, t)
    ensures WritesMatch(Take(st, s), t)
  {
    match s
    case Send(i, outcome) =>
      var d := st.consumers[i].data;
      assert [d][0].failed <==> Skips(d.task);
      TasksOfAppend(st.results, d.(failed := d.failed || outcome));
    case Collect =>
      TasksOfHead(st.results);
      TasksOfAppend(st.collected, st.results[0]);
    case _ =>
  }

  lemma {:induction false} RunWrites(states: seq<State>, steps: seq<Step>, shard: seq<ClusterShard>, i: nat, t: Task)
    requires IsRun(states, steps, shard) && i < |states|
    ensures WritesMatch(states[i], t)
  {
    if i > 0 {
      RunWrites(states, steps, shard, i - 1, t);
      RunInv(states, steps, shard, i - 1);
      StepKeepsWrites(states[i - 1], steps[i - 1], t);
    }
  }

  /** Main result: whatever the interleaving, when the handler returns, the collector has
      received exactly one result for each identity of each cluster of the shard, and the
      result of a skipped identity is a failure. */
  lemma OneResultPerIdentity(states: seq<State>, steps: seq<Step>, shard: seq<ClusterShard>, i: nat)
    requires IsRun(states, steps, shard) && i < |states| && states[i].main.Returned?
    ensures multiset(TasksOf(states[i].collected)) == multiset(ShardTasks(shard))
    ensures Reported(states[i].collected)
  {
    RunInv(states, steps, shard, i);
    var st := states[i];
    assert st.consumers[0].Exited?;
    assert st.tasks == [] && TasksOf(st.jobs) == [] && TasksOf(st.results) == [];
    forall t
      ensures multiset(TasksOf(st.collected))[t] == multiset(ShardTasks(shard))[t]
    {
      NothingInHand(st.consumers, t);
      assert Copies(st, t) == multiset(ShardTasks(shard))[t];
    }
  }

  /** When the handler returns, the consumers have set out to write exactly the identities that
      were not skipped, each once; one whose lookup succeeded is skipped when its last cache put failed. */
  lemma WrittenExactly(states: seq<State>, steps: seq<Step>, shard: seq<ClusterShard>, i: nat, t: Task)
    requires IsRun(states, steps, shard) && i < |states| && states[i].main.Returned?
    ensures multiset(states[i].written)[t] ==
            if t.lookupFails || t.lastPutFails then 0 else multiset(ShardTasks(shard))[t]
  {
    OneResultPerIdentity(states, steps, shard, i);
    RunWrites(states, steps, shard, i, t);
    RunInv(states, steps, shard, i);
    assert TasksOf(states[i].results) == [];
  }

  /** Until the handler returns some step is possible: the pipeline cannot deadlock. */
  lemma SomeStepEnabled(st: State) returns (s: Step)
    requires Inv(st) && !st.main.Returned?
    ensures Enabled(st, s)
  {
    if st.results != [] && !st.collectorDone {
      s := Collect;
    } else if i :| 0 <= i < |st.consumers| && st.consumers[i].Working? {
      s := Send(i, false);
    } else if i :| 0 <= i < |st.consumers| && st.consumers[i].Waiting? {
      if st.jobs != [] {
        s := Receive(i);
      } else {
        s := match st.producer
             case Producing => if st.tasks != [] then Produce else SignalProduced
             case Signalled => CloseJobs
             case Closed => Exit(i);
      }
    } else {
      assert st.consumers[0].Exited?;
      s := match st.main
           case AwaitProducer => MainSeesProducer
           case AwaitConsumers => MainClosesResults
           case AwaitResults => if st.collectorDone then MainReturns else CollectorExit
           case Returned => MainReturns;
    }
  }

  function Active(cs: seq<Consumer>): nat {
    if cs == [] then 0
    else (match cs[0] case Waiting => 1 case Working(_) => 3 case Exited => 0) + Active(cs[1..])
  }

  /** Steps still to come at most. */
  function Measure(st: State): nat {
    4 * |st.tasks| + 3 * |st.jobs| + Active(st.consumers) + |st.results| +
    (match st.producer case Producing => 2 case Signalled => 1 case Closed => 0) +
    (match st.main case AwaitProducer => 3 case AwaitConsumers => 2 case AwaitResults => 1 case Returned => 0) +
    (if st.collectorDone then 0 else 1)
  }

  lemma {:induction false} ActiveUpdate(cs: seq<Consumer>, i: nat, c: Consumer)
    requires i < |cs|
    ensures Active(cs[i := c]) + Active([cs[i]]) == Active(cs) + Active([c])
  {
    if i == 0 {
      assert cs[0 := c][1..] == cs[1..];
    } else {
      assert cs[i := c][1..] == cs[1..][i - 1 := c];
      ActiveUpdate(cs[1..], i - 1, c);
    }
  }

  lemma StepDecreases(st: State, s: Step)
    requires Enabled(st, s)
    ensures Measure(Take(st, s)) < Measure(st)
  {
    match s
    case Receive(i) => ActiveUpdate(st.consumers, i, Working(st.jobs[0]));
    case Send(i, _) => ActiveUpdate(st.consumers, i, Waiting);
    case Exit(i) => ActiveUpdate(st.consumers, i, Exited);
    case _ =>
  }

  /** Every run, continued as long as a step is possible, returns within the measure of its start. */
  lemma {:induction false} RunsReturn(states: seq<State>, steps: seq<Step>, shard: seq<ClusterShard>, i: nat)
    requires IsRun(states, steps, shard) && i < |states|
    ensures Measure(states[i]) + i <= Measure(states[0])
    ensures (forall s :: !Enabled(states[i], s)) ==> states[i].main.Returned?
  {
    if i > 0 {
      RunsReturn(states, steps, shard, i - 1);
      StepDecreases(states[i - 1], steps[i - 1]);
    }
    RunInv(states, steps, shard, i);
    if !states[i].main.Returned? {
      var s := SomeStepEnabled(states[i]);
      assert Enabled(states[i], s);
    }
  }

  // ----- failed writes are reported -----------------------------------------------------------------

  /** How many results of a task are failures. */
  function Failures(ds: seq<Data>, t: Task): nat {
    if ds == [] then 0 else (if ds[0].task == t && ds[0].failed then 1 else 0) + Failures(ds[1..], t)
  }

  lemma {:induction false} FailuresAppend(ds: seq<Data>, d: Data, t: Task)
    ensures Failures(ds + [d], t) == Failures(ds, t) + if d.task == t && d.failed then 1 else 0
  {
    if ds == [] {
      assert ds + [d] == [d];
    } else {
      assert (ds + [d])[1..] == ds[1..] + [d];
      FailuresAppend(ds[1..], d, t);
    }
  }

  /** A consumer's failed write becomes a failed result of its task. */
  lemma FailedWriteIsSent(st: State, i: nat)
    requires Enabled(st, Send(i, true))
    ensures
      var sent := Take(st, Send(i, true)).results;
      sent[..|st.results|] == st.results && |sent| == |st.results| + 1 &&
      sent[|st.results|] == Data(st.consumers[i].data.task, true)
  {
  }

  /** The step ends the writes for a task, and one of them failed. */
  predicate FailsWrite(st: State, s: Step, t: Task) {
    s.Send? && s.outcome && s.i < |st.consumers| && st.consumers[s.i].Working? && st.consumers[s.i].data.task == t
  }

  function FailedWrites(states: seq<State>, steps: seq<Step>, i: nat, t: Task): nat
    requires i <= |steps| && |states| == |steps| + 1
  {
    if i == 0 then 0
    else FailedWrites(states, steps, i - 1, t) + if FailsWrite(states[i - 1], steps[i - 1], t) then 1 else 0
  }

  /** What one step adds to a task's failures, sent and collected. */
  lemma StepFailures(st: State, s: Step, t: Task)
    requires Inv(st) && Enabled(st, s) && !Skips(t)
    ensures
      var st' := Take(st, s);
      Failures(st'.results, t) + Failures(st'.collected, t) ==
      Failures(st.results, t) + Failures(st.collected, t) + if FailsWrite(st, s, t) then 1 else 0
  {
    match s
    case Send(i, outcome) =>
      var d := st.consumers[i].data;
      assert [d][0].failed <==> Skips(d.task);
      FailuresAppend(st.results, d.(failed := d.failed || outcome), t);
    case Collect => FailuresAppend(st.collected, st.results[0], t);
    case _ =>
  }

  lemma {:induction false} RunFailures(states: seq<State>, steps: seq<Step>, shard: seq<ClusterShard>, i: nat, t: Task)
    requires IsRun(states, steps, shard) && i < |states| && !Skips(t)
    ensures Failures(states[i].results, t) + Failures(states[i].collected, t) == FailedWrites(states, steps, i, t)
  {
    if i > 0 {
      RunFailures(states, steps, shard, i - 1, t);
      RunInv(states, steps, shard, i - 1);
      StepFailures(states[i - 1], steps[i - 1], t);
    }
  }

  lemma {:induction false} AllFailures(ds: seq<Data>, t: Task)
    requires Reported(ds) && Skips(t)
    ensures Failures(ds, t) == multiset(TasksOf(ds))[t]
  {
    if ds != [] {
      AllFailures(ds[1..], t);
      TasksOfHead(ds);
    }
  }

  /** When the handler returns, a task has as many failed results as writes for it failed; a
      skipped task has failed results only, one for each time it is in the shard. */
  lemma FailuresExactly(states: seq<State>, steps: seq<Step>, shard: seq<ClusterShard>, i: nat, t: Task)
    requires IsRun(states, steps, shard) && i < |states| && states[i].main.Returned?
    ensures Failures(states[i].collected, t) ==
      if t.lookupFails || t.lastPutFails then multiset(ShardTasks(shard))[t] else FailedWrites(states, steps, i, t)
  {
    OneResultPerIdentity(states, steps, shard, i);
    RunInv(states, steps, shard, i);
    if Skips(t) {
      AllFailures(states[i].collected, t);
    } else {
      RunFailures(states, steps, shard, i, t);
      assert states[i].results == [];
    }
  }

  /** At most five identities are in hand and at most 1000 messages in each channel. */
  lemma {:induction false} RunStaysBounded(states: seq<State>, steps: seq<Step>, shard: seq<ClusterShard>, i: nat)
    requires IsRun(states, steps, shard) && i < |states|
    ensures |states[i].consumers| == 5 && |states[i].jobs| <= 1000 && |states[i].results| <= 1000
  {
    if i > 0 {
      RunStaysBounded(states, steps, shard, i - 1);
    }
  }

  // ----- the collector's report ---------------------------------------------------------------

  /** The failed identities of one cluster, latest first. */
  function FailedOf(results: seq<Data>, cluster: string): seq<string> {
    if results == [] then []
    else
      var last := results[|results| - 1];
      var before := FailedOf(results[..|results| - 1], cluster);
      if last.failed && last.task.cluster == cluster then [last.task.identity] + before else before
  }

  method ProcessResults(results: seq<Data>) returns (failures: map<string, seq<string>>, processed: bool)
    ensures processed <==> forall i :: 0 <= i < |results| ==> !results[i].failed
    ensures forall c :: c in failures <==> FailedOf(results, c) != []
    ensures forall c :: c in failures ==> failures[c] == FailedOf(results, c)
  {
    failures, processed := map[], true;
    for k := 0 to |results|
      invariant processed <==> forall i :: 0 <= i < k ==> !results[i].failed
      invariant forall c :: c in failures <==> FailedOf(results[..k], c) != []
      invariant forall c :: c in failures ==> failures[c] == FailedOf(results[..k], c)
    {
      var data := results[k];
      assert results[..k + 1][..k] == results[..k];
      if data.failed {
        var cluster := data.task.cluster;
        var known := if cluster in failures then failures[cluster] else [];
        failures := failures[cluster := [data.task.identity] + known];
        processed := false;
      }
    }
    assert results[..|results|] == results;
  }

  /** The report names an identity of a cluster exactly when one of its results failed. */
  lemma {:induction false} ReportedExactly(results: seq<Data>, cluster: string, identity: string)
    ensures identity in FailedOf(results, cluster) <==>
      exists i :: 0 <= i < |results| && results[i].failed &&
                  results[i].task.cluster == cluster && results[i].task.identity == identity
  {
    if results != [] {
      var n := |results| - 1;
      ReportedExactly(results[..n], cluster, identity);
      assert forall i :: 0 <= i < n ==> results[..n][i] == results[i];
    }
  }

  lemma FailedOfLast(ds: seq<Data>, d: Data, cluster: string)
    ensures FailedOf(ds + [d], cluster) ==
            (if d.failed && d.task.cluster == cluster then [d.task.identity] else []) + FailedOf(ds, cluster)
  {
    assert (ds + [d])[..|ds|] == ds;
  }

  /** A failed result is named under its cluster, behind all later ones. */
  lemma {:induction false} LatestFirst(d: Data, later: seq<Data>, cluster: string)
    ensures FailedOf([d] + later, cluster) ==
            FailedOf(later, cluster) + if d.failed && d.task.cluster == cluster then [d.task.identity] else []
    decreases |later|
  {
    if later == [] {
      FailedOfLast([], d, cluster);
      assert [d] + later == [] + [d];
    } else {
      var init, last := later[..|later| - 1], later[|later| - 1];
      assert later == init + [last] && [d] + later == [d] + init + [last];
      LatestFirst(d, init, cluster);
      FailedOfLast([d] + init, last, cluster);
      FailedOfLast(init, last, cluster);
    }
  }

  lemma {:induction false} FailureFound(ds: seq<Data>, t: Task)
    ensures Failures(ds, t) > 0 <==> exists i :: 0 <= i < |ds| && ds[i].failed && ds[i].task == t
  {
    if ds != [] {
      FailureFound(ds[1..], t);
      assert forall i :: 0 <= i < |ds| - 1 ==> ds[1..][i] == ds[i + 1];
      if i :| 0 <= i < |ds| && ds[i].failed && ds[i].task == t {
        assert i == 0 || ds[1..][i - 1] == ds[i];
      }
    }
  }

  /** The final report names an identity of a cluster exactly when one of its tasks in the shard
      was skipped or had a failed write. */
  lemma FinalReport(
      states: seq<State>, steps: seq<Step>, shard: seq<ClusterShard>, n: nat, cluster: string, identity: string)
    requires IsRun(states, steps, shard) && n < |states| && states[n].main.Returned?
    ensures identity in FailedOf(states[n].collected, cluster) <==>
      exists t: Task :: t.cluster == cluster && t.identity == identity &&
        if t.lookupFails || t.lastPutFails then t in ShardTasks(shard) else FailedWrites(states, steps, n, t) > 0
  {
    var ds := states[n].collected;
    ReportedExactly(ds, cluster, identity);
    forall t
      ensures Failures(ds, t) > 0 <==> if Skips(t) then t in ShardTasks(shard) else FailedWrites(states, steps, n, t) > 0
      ensures Failures(ds, t) > 0 <==> exists i :: 0 <= i < |ds| && ds[i].failed && ds[i].task == t
    {
      FailuresExactly(states, steps, shard, n, t);
      FailureFound(ds, t);
      assert t in ShardTasks(shard) <==> t in multiset(ShardTasks(shard));
    }
  }
}
