/** Properties of all runs of the work queue. */
module WorkQueueRuns {
  import opened Mesh
  import opened Prelude
  import opened WorkQueue

  predicate Pending(c: Controller, x: Item) {
    x in c.ready || x in c.delayed
  }

  /** Events are told apart, and the versions of one object arrive in increasing order. */
  ghost predicate OrderlyStep(hist: seq<Item>, s: Step) {
    s.Enqueue? ==>
      s.item !in hist && forall x :: x in hist && x.name == s.item.name ==> x.version < s.item.version
  }

  function Recorded(hist: seq<Item>, s: Step): seq<Item> {
    if s.Enqueue? then hist + [s.item] else hist
  }

  // ----- attempts and conservation ---------------------------------------------------------

  /** Every pending event is in one place only. */
  ghost predicate Separate(c: Controller) {
    NoDuplicates(c.ready) && NoDuplicates(c.delayed) && forall x :: x in c.ready ==> x !in c.delayed
  }

  /** No event is lost before its first attempt, none is invented. */
  ghost predicate Conserved(c: Controller, hist: seq<Item>) {
    && (forall x :: Pending(c, x) ==> x in hist)
    && (forall x :: x in c.handed ==> x in hist)
    && (forall x :: x in hist ==> Pending(c, x) || x in c.handed)
  }

  /** The rate limiter's counts are the attempts of the pending events. */
  ghost predicate Counted(c: Controller) {
    && (forall x :: x in c.requeues ==> Pending(c, x) && 1 <= c.requeues[x] <= MAX_RETRIES)
    && (forall x :: x in c.delayed ==> x in c.requeues)
    && (forall x :: Pending(c, x) ==> multiset(c.handed)[x] == NumRequeues(c, x))
    && (forall x :: multiset(c.handed)[x] <= MAX_RETRIES + 1)
  }

  ghost predicate Bookkeeping(c: Controller, hist: seq<Item>) {
    Separate(c) && Conserved(c, hist) && Counted(c)
  }

  lemma HeadOnce(c: Controller)
    requires Separate(c) && c.ready != []
    ensures c.ready[0] !in c.ready[1..] && c.ready[0] !in c.delayed
    ensures NoDuplicates(c.ready[1..])
    ensures forall x :: x in c.ready <==> x == c.ready[0] || x in c.ready[1..]
  {
    assert c.ready == [c.ready[0]] + c.ready[1..];
    assert c.ready[0] in c.ready;
  }

  lemma DropKeepsBookkeeping(c: Controller, hist: seq<Item>)
    requires Bookkeeping(c, hist) && c.ready != [] && NumRequeues(c, c.ready[0]) > 0
    ensures Bookkeeping(Drop(c), hist)
  {
    HeadOnce(c);
    assert multiset(c.handed)[c.ready[0]] > 0;
  }

  lemma SettleKeepsBookkeeping(c: Controller, hist: seq<Item>)
    requires Bookkeeping(c, hist) && c.ready != []
    ensures Bookkeeping(Settle(c), hist)
  {
    HeadOnce(c);
    assert Counted(Settle(c));
    assert Conserved(Settle(c), hist);
  }

  lemma RetryKeepsBookkeeping(c: Controller, hist: seq<Item>)
    requires Bookkeeping(c, hist) && c.ready != [] && NumRequeues(c, c.ready[0]) < MAX_RETRIES
    ensures Bookkeeping(Retry(c), hist)
  {
    HeadOnce(c);
    assert Separate(Retry(c));
    assert Counted(Retry(c));
  }

  lemma WithoutOne(s: seq<Item>, i: nat)
    requires NoDuplicates(s) && i < |s|
    ensures NoDuplicates(s[..i] + s[i + 1..])
    ensures s[i] !in s[..i] + s[i + 1..]
    ensures forall x :: x in s <==> x == s[i] || x in s[..i] + s[i + 1..]
  {
    var t := s[..i] + s[i + 1..];
    assert forall k :: 0 <= k < |t| ==> t[k] == s[if k < i then k else k + 1];
    assert s == s[..i] + [s[i]] + s[i + 1..];
  }

  /** `c'` has the same pending events as `c`, each once, and is otherwise the same. */
  lemma MovingKeepsBookkeeping(c: Controller, hist: seq<Item>, c': Controller)
    requires Bookkeeping(c, hist) && Separate(c')
    requires c'.requeues == c.requeues && c'.handed == c.handed
    requires forall x :: Pending(c', x) <==> Pending(c, x)
    requires forall x :: x in c'.delayed ==> x in c.delayed
    ensures Bookkeeping(c', hist)
  {
  }

  lemma MatureKeepsBookkeeping(c: Controller, hist: seq<Item>, i: nat)
    requires Bookkeeping(c, hist) && i < |c.delayed|
    ensures Bookkeeping(Take(c, Mature(i)), hist)
  {
    var x, c' := c.delayed[i], Take(c, Mature(i));
    WithoutOne(c.delayed, i);
    assert x in c.delayed;
    assert forall y :: y in c'.ready <==> y == x || y in c.ready;
    MovingKeepsBookkeeping(c, hist, c');
  }

  lemma StepKeepsBookkeeping(c: Controller, hist: seq<Item>, s: Step)
    requires Bookkeeping(c, hist) && Enabled(c, s) && OrderlyStep(hist, s)
    ensures Bookkeeping(Take(c, s), Recorded(hist, s))
  {
    match s
    case Enqueue(item) =>
      assert !Pending(c, item) && multiset(c.handed)[item] == 0;
    case Mature(i) => MatureKeepsBookkeeping(c, hist, i);
    case Process(ok) =>
      var c' := ProcessNext(c, ok);
      if c' == Drop(c) && NumRequeues(c, c.ready[0]) > 0 {
        DropKeepsBookkeeping(c, hist);
      } else if c' == Retry(c) && NumRequeues(c, c.ready[0]) < MAX_RETRIES {
        RetryKeepsBookkeeping(c, hist);
      } else {
        SettleKeepsBookkeeping(c, hist);
      }
  }

  // ----- order -------------------------------------------------------------------------------

  predicate IsFresh(c: Controller, x: Item) {
    NumRequeues(c, x) == 0
  }

  ghost predicate Monotone(handed: seq<Item>) {
    forall i, j :: 0 <= i < j < |handed| && handed[i].name == handed[j].name ==>
      handed[i].version <= handed[j].version
  }

  /** First attempts come in the order of their versions. */
  ghost predicate QueueOrdered(c: Controller) {
    forall i, j :: 0 <= i < j < |c.ready| && c.ready[i].name == c.ready[j].name && IsFresh(c, c.ready[j]) ==>
      c.ready[i].version < c.ready[j].version
  }

  /** A first attempt is newer than everything handed over before. */
  ghost predicate FreshNewest(c: Controller) {
    forall x, h :: x in c.ready && IsFresh(c, x) && h in c.handed && h.name == x.name ==> h.version < x.version
  }

  /** First attempts are in order; this holds in every run. */
  ghost predicate InOrder(c: Controller) {
    QueueOrdered(c) && FreshNewest(c)
  }

  /** What the cache knows of an object is its newest handed version. */
  ghost predicate CacheCurrent(c: Controller) {
    forall h :: h in c.handed && h.name in c.cache ==> h.version <= c.cache[h.name]
  }

  predicate NewerHanded(handed: seq<Item>, item: Item) {
    exists k :: 0 <= k < |handed| && handed[k].name == item.name && handed[k].version > item.version
  }

  /** A retry whose object is not in the cache, although a newer version of it was handed
      over: the staleness test has nothing to compare with. */
  predicate StaleAttempt(c: Controller, s: Step) {
    && s.Process? && c.ready != [] && NumRequeues(c, c.ready[0]) > 0
    && c.ready[0].name !in c.cache && NewerHanded(c.handed, c.ready[0])
  }

  /** `c'` is `c` after its head was handed over, whatever became of the head. */
  ghost predicate HandedOver(c: Controller, c': Controller) {
    && c.ready != []
    && c'.ready == c.ready[1..]
    && c'.handed == c.handed + [c.ready[0]]
    && c'.cache == Cached(c.cache, c.ready[0])
    && (forall x :: x != c.ready[0] ==> NumRequeues(c', x) == NumRequeues(c, x) && (x in c'.requeues <==> x in c.requeues))
  }

  lemma HandedKeepsOrder(c: Controller, hist: seq<Item>, c': Controller)
    requires Bookkeeping(c, hist) && InOrder(c) && HandedOver(c, c')
    ensures InOrder(c')
  {
    var item := c.ready[0];
    HeadOnce(c);
    assert forall i :: 0 <= i < |c'.ready| ==> c'.ready[i] == c.ready[i + 1] && c'.ready[i] != item;
    forall x, h | x in c'.ready && IsFresh(c', x) && h in c'.handed && h.name == x.name
      ensures h.version < x.version
    {
      assert IsFresh(c, x) && x in c.ready;
      if h == item {
        var j :| 0 <= j < |c'.ready| && c'.ready[j] == x;
        assert c.ready[j + 1] == x && c.ready[0] == item;
      }
    }
  }

  lemma DropKeepsOrder(c: Controller, hist: seq<Item>)
    requires Bookkeeping(c, hist) && InOrder(c) && c.ready != []
    ensures InOrder(Drop(c))
  {
    HeadOnce(c);
    var c' := Drop(c);
    assert forall x :: x in c'.ready ==> x in c.ready && IsFresh(c, x) == IsFresh(c', x);
    assert forall i :: 0 <= i < |c'.ready| ==> c'.ready[i] == c.ready[i + 1];
  }

  /** A retry, or a newest version, at the end of the queue disturbs nothing. */
  lemma AppendKeepsOrder(c: Controller, item: Item)
    requires InOrder(c)
    requires IsFresh(c, item) ==> forall x :: x in c.ready && x.name == item.name ==> x.version < item.version
    requires IsFresh(c, item) ==> forall h :: h in c.handed && h.name == item.name ==> h.version < item.version
    ensures InOrder(c.(ready := c.ready + [item]))
  {
    var c' := c.(ready := c.ready + [item]);
    assert QueueOrdered(c') by {
      assert forall i :: 0 <= i < |c.ready| ==> c'.ready[i] == c.ready[i] && c.ready[i] in c.ready;
    }
    assert forall x :: x in c'.ready ==> x == item || x in c.ready;
  }

  lemma StepKeepsOrder(c: Controller, hist: seq<Item>, s: Step)
    requires Bookkeeping(c, hist) && InOrder(c) && Enabled(c, s) && OrderlyStep(hist, s)
    ensures InOrder(Take(c, s))
  {
    match s
    case Enqueue(item) =>
      assert forall x :: x in c.ready ==> Pending(c, x);
      AppendKeepsOrder(c, item);
    case Mature(i) =>
      assert c.delayed[i] in c.delayed;
      AppendKeepsOrder(c.(delayed := c.delayed[..i] + c.delayed[i + 1..]), c.delayed[i]);
    case Process(ok) =>
      if NumRequeues(c, c.ready[0]) > 0 && !ShouldRetry(c.cache, c.ready[0]) {
        DropKeepsOrder(c, hist);
      } else {
        HandedKeepsOrder(c, hist, ProcessNext(c, ok));
      }
  }

  /** The head, when it is handed over and is no stale attempt, is at least as new as
      everything handed before. */
  lemma HeadIsNewest(c: Controller)
    requires FreshNewest(c) && CacheCurrent(c) && c.ready != [] && !StaleAttempt(c, Process(true))
    requires NumRequeues(c, c.ready[0]) > 0 ==> ShouldRetry(c.cache, c.ready[0])
    ensures forall h :: h in c.handed && h.name == c.ready[0].name ==> h.version <= c.ready[0].version
  {
    var item := c.ready[0];
    assert item in c.ready;
    forall h | h in c.handed && h.name == item.name
      ensures h.version <= item.version
    {
      var k :| 0 <= k < |c.handed| && c.handed[k] == h;
      assert NewerHanded(c.handed, item) || h.version <= item.version;
    }
  }

  lemma StepKeepsMonotone(c: Controller, s: Step)
    requires FreshNewest(c) && CacheCurrent(c) && Monotone(c.handed)
    requires Enabled(c, s) && !StaleAttempt(c, s)
    ensures CacheCurrent(Take(c, s)) && Monotone(Take(c, s).handed)
  {
    if s.Process? && !(NumRequeues(c, c.ready[0]) > 0 && !ShouldRetry(c.cache, c.ready[0])) {
      HeadIsNewest(c);
    }
  }

  lemma StaleAttemptBreaksOrder(c: Controller, s: Step)
    requires Enabled(c, s) && StaleAttempt(c, s)
    ensures !Monotone(Take(c, s).handed)
  {
    var handed := Take(c, s).handed;
    assert handed == c.handed + [c.ready[0]];
    var k :| 0 <= k < |c.handed| && c.handed[k].name == c.ready[0].name && c.handed[k].version > c.ready[0].version;
    assert handed[k] == c.handed[k] && handed[|c.handed|] == c.ready[0];
  }

  lemma HandedGrows(c: Controller, s: Step)
    requires Enabled(c, s)
    ensures c.handed <= Take(c, s).handed
    ensures Monotone(Take(c, s).handed) ==> Monotone(c.handed)
  {
    var handed := Take(c, s).handed;
    assert c.handed <= handed;
    assert forall i :: 0 <= i < |c.handed| ==> handed[i] == c.handed[i];
  }

  /** One step keeps the versions in order exactly when it is no stale attempt. */
  lemma StepDecidesOrder(c: Controller, s: Step)
    requires FreshNewest(c) && Enabled(c, s) && (Monotone(c.handed) ==> CacheCurrent(c))
    ensures Monotone(Take(c, s).handed) <==> Monotone(c.handed) && !StaleAttempt(c, s)
    ensures Monotone(Take(c, s).handed) ==> CacheCurrent(Take(c, s))
  {
    HandedGrows(c, s);
    if StaleAttempt(c, s) {
      StaleAttemptBreaksOrder(c, s);
    } else if Monotone(c.handed) {
      StepKeepsMonotone(c, s);
    }
  }

  // ----- runs ----------------------------------------------------------------------------------

  ghost predicate IsStep(c: Controller, hist: seq<Item>, s: Step, c': Controller, hist': seq<Item>) {
    Enabled(c, s) && OrderlyStep(hist, s) && c' == Take(c, s) && hist' == Recorded(hist, s)
  }

  ghost predicate IsRun(states: seq<Controller>, steps: seq<Step>, hists: seq<seq<Item>>) {
    && |states| == |hists| == |steps| + 1
    && states[0] == EMPTY && hists[0] == []
    && forall i :: 0 <= i < |steps| ==> IsStep(states[i], hists[i], steps[i], states[i + 1], hists[i + 1])
  }

  lemma RunStep(states: seq<Controller>, steps: seq<Step>, hists: seq<seq<Item>>, k: nat)
    requires IsRun(states, steps, hists) && k < |steps|
    ensures IsStep(states[k], hists[k], steps[k], states[k + 1], hists[k + 1])
  {
  }

  /** Over every run, deletes included: no event is handed over more than three times,
      and no event is dropped before its first attempt. */
  lemma {:induction false} AttemptsBounded(states: seq<Controller>, steps: seq<Step>, hists: seq<seq<Item>>, i: nat)
    requires IsRun(states, steps, hists) && i < |states|
    ensures Bookkeeping(states[i], hists[i])
    ensures forall x :: multiset(states[i].handed)[x] <= MAX_RETRIES + 1
    ensures forall x :: x in hists[i] ==> x in states[i].ready || x in states[i].delayed || x in states[i].handed
  {
    if i > 0 {
      AttemptsBounded(states, steps, hists, i - 1);
      RunStep(states, steps, hists, i - 1);
      StepKeepsBookkeeping(states[i - 1], hists[i - 1], steps[i - 1]);
    }
  }

  lemma {:induction false} RunKeepsOrder(states: seq<Controller>, steps: seq<Step>, hists: seq<seq<Item>>, i: nat)
    requires IsRun(states, steps, hists) && i < |states|
    ensures InOrder(states[i])
  {
    if i > 0 {
      RunKeepsOrder(states, steps, hists, i - 1);
      RunStep(states, steps, hists, i - 1);
      AttemptsBounded(states, steps, hists, i - 1);
      StepKeepsOrder(states[i - 1], hists[i - 1], steps[i - 1]);
    }
  }

  predicate StaleAttempted(states: seq<Controller>, steps: seq<Step>, i: nat)
    requires |states| == |steps| + 1 && i < |states|
  {
    exists k :: 0 <= k < i && StaleAttempt(states[k], steps[k])
  }

  /** Over every run: the versions of each object handed to the delegator never decrease
      exactly when no stale attempt was made. */
  lemma {:induction false} VersionsNeverDecrease(states: seq<Controller>, steps: seq<Step>, hists: seq<seq<Item>>, i: nat)
    requires IsRun(states, steps, hists) && i < |states|
    ensures Monotone(states[i].handed) <==> !StaleAttempted(states, steps, i)
    ensures Monotone(states[i].handed) ==> CacheCurrent(states[i])
  {
    if i > 0 {
      VersionsNeverDecrease(states, steps, hists, i - 1);
      RunStep(states, steps, hists, i - 1);
      RunKeepsOrder(states, steps, hists, i - 1);
      StepDecidesOrder(states[i - 1], steps[i - 1]);
      assert StaleAttempted(states, steps, i) <==>
        StaleAttempted(states, steps, i - 1) || StaleAttempt(states[i - 1], steps[i - 1]);
    }
  }

  /** A delete is not handed over while an older event of its object waits for a retry. */
  predicate NoOlderRetry(c: Controller, s: Step) {
    s.Process? && c.ready != [] && c.ready[0].event.Delete? ==>
      forall x :: x in c.requeues && x.name == c.ready[0].name ==> c.ready[0].version <= x.version
  }

  /** Where the cache knows nothing of an object, no retry is older than what was handed. */
  ghost predicate RetriesCurrent(c: Controller) {
    forall h, x :: h in c.handed && h.name !in c.cache && x in c.requeues && x.name == h.name ==> h.version <= x.version
  }

  lemma NoStaleAttempt(c: Controller, s: Step)
    requires RetriesCurrent(c)
    ensures !StaleAttempt(c, s)
  {
  }

  lemma StepKeepsRetriesCurrent(c: Controller, s: Step)
    requires FreshNewest(c) && CacheCurrent(c) && RetriesCurrent(c) && Enabled(c, s) && NoOlderRetry(c, s)
    ensures RetriesCurrent(Take(c, s))
  {
    if s.Process? && !(NumRequeues(c, c.ready[0]) > 0 && !ShouldRetry(c.cache, c.ready[0])) {
      NoStaleAttempt(c, Process(true));
      HeadIsNewest(c);
      var c' := Take(c, s);
      forall h, x | h in c'.handed && h.name !in c'.cache && x in c'.requeues && x.name == h.name
        ensures h.version <= x.version
      {
        assert h == c.ready[0] || h in c.handed;
      }
    }
  }

  lemma PatientStep(c: Controller, s: Step)
    requires FreshNewest(c) && CacheCurrent(c) && RetriesCurrent(c) && Monotone(c.handed) && Enabled(c, s) && NoOlderRetry(c, s)
    ensures RetriesCurrent(Take(c, s)) && Monotone(Take(c, s).handed)
  {
    StepKeepsRetriesCurrent(c, s);
    NoStaleAttempt(c, s);
    StepKeepsMonotone(c, s);
  }

  /** No stale attempt is made when no delete overtakes an older retry of its object. */
  lemma {:induction false} PatientDeletesSuffice(states: seq<Controller>, steps: seq<Step>, hists: seq<seq<Item>>, i: nat)
    requires IsRun(states, steps, hists) && i < |states|
    requires forall k :: 0 <= k < |steps| ==> NoOlderRetry(states[k], steps[k])
    ensures RetriesCurrent(states[i]) && Monotone(states[i].handed)
  {
    if i > 0 {
      var c, s := states[i - 1], steps[i - 1];
      PatientDeletesSuffice(states, steps, hists, i - 1);
      VersionsNeverDecrease(states, steps, hists, i - 1);
      RunKeepsOrder(states, steps, hists, i - 1);
      RunStep(states, steps, hists, i - 1);
      assert NoOlderRetry(c, s) && states[i] == Take(c, s);
      PatientStep(c, s);
    }
  }

  /** Without deletes none is made at all. */
  lemma {:induction false} WithoutDeletesVersionsNeverDecrease(
      states: seq<Controller>, steps: seq<Step>, hists: seq<seq<Item>>, i: nat)
    requires IsRun(states, steps, hists) && i < |states|
    requires forall k :: 0 <= k < |steps| && steps[k].Enqueue? ==> !steps[k].item.event.Delete?
    ensures Monotone(states[i].handed)
  {
    forall k | 0 <= k < |steps|
      ensures NoOlderRetry(states[k], steps[k])
    {
      NoDeletesQueued(states, steps, hists, k);
      AttemptsBounded(states, steps, hists, k);
      if states[k].ready != [] {
        assert Pending(states[k], states[k].ready[0]);
      }
    }
    PatientDeletesSuffice(states, steps, hists, i);
  }

  lemma {:induction false} NoDeletesQueued(states: seq<Controller>, steps: seq<Step>, hists: seq<seq<Item>>, i: nat)
    requires IsRun(states, steps, hists) && i < |states|
    requires forall k :: 0 <= k < |steps| && steps[k].Enqueue? ==> !steps[k].item.event.Delete?
    ensures forall x :: x in hists[i] ==> !x.event.Delete?
  {
    if i > 0 {
      NoDeletesQueued(states, steps, hists, i - 1);
      RunStep(states, steps, hists, i - 1);
    }
  }

  ghost predicate RunTo(states: seq<Controller>, steps: seq<Step>, hists: seq<seq<Item>>, c: Controller, hist: seq<Item>) {
    IsRun(states, steps, hists) && states[|steps|] == c && hists[|steps|] == hist
  }

  lemma Extend(states: seq<Controller>, steps: seq<Step>, hists: seq<seq<Item>>, c: Controller, hist: seq<Item>, s: Step, c': Controller)
    returns (states': seq<Controller>, steps': seq<Step>, hists': seq<seq<Item>>)
    requires RunTo(states, steps, hists, c, hist) && Enabled(c, s) && OrderlyStep(hist, s) && c' == Take(c, s)
    ensures RunTo(states', steps', hists', c', Recorded(hist, s)) && states <= states'
  {
    states', steps', hists' := states + [c'], steps + [s], hists + [Recorded(hist, s)];
    forall k | 0 <= k < |steps'|
      ensures IsStep(states'[k], hists'[k], steps'[k], states'[k + 1], hists'[k + 1])
    {
      if k < |steps| {
        assert IsStep(states[k], hists[k], steps[k], states[k + 1], hists[k + 1]);
      }
    }
  }

  /** The worker gets to the last event of the queue, successfully, without touching what
      the cache knows of another object. */
  lemma {:induction false} WorkThrough(
      states: seq<Controller>, steps: seq<Step>, hists: seq<seq<Item>>, c: Controller, hist: seq<Item>, last: Item)
    returns (states': seq<Controller>, steps': seq<Step>, hists': seq<seq<Item>>, c': Controller)
    requires RunTo(states, steps, hists, c, hist)
    requires c.ready != [] && c.ready[|c.ready| - 1] == last && last.name !in c.cache
    requires forall k :: 0 <= k < |c.ready| - 1 ==> c.ready[k].name != last.name
    ensures RunTo(states', steps', hists', c', hist) && states <= states'
    ensures c'.ready == [last] && c.handed <= c'.handed && last.name !in c'.cache
    decreases |c.ready|
  {
    if |c.ready| == 1 {
      states', steps', hists', c' := states, steps, hists, c;
    } else {
      var next := Take(c, Process(true));
      assert next.ready == c.ready[1..];
      assert forall k :: 0 <= k < |next.ready| ==> next.ready[k] == c.ready[k + 1];
      states', steps', hists' := Extend(states, steps, hists, c, hist, Process(true), next);
      states', steps', hists', c' := WorkThrough(states', steps', hists', next, hist, last);
    }
  }

  /** Stale attempts do occur: from any state of a run with a first-attempt delete at the head,
      an older event of the object waiting for its retry, and no other event of the object in
      the queue, the run can go on to hand the older version over after the delete and leave
      it in the cache. */
  lemma OlderRetryGetsThrough(
      states: seq<Controller>, steps: seq<Step>, hists: seq<seq<Item>>, c: Controller, hist: seq<Item>, i: nat)
    returns (states': seq<Controller>, steps': seq<Step>, hists': seq<seq<Item>>)
    requires RunTo(states, steps, hists, c, hist)
    requires c.ready != [] && c.ready[0].event.Delete? && IsFresh(c, c.ready[0])
    requires i < |c.delayed| && !c.delayed[i].event.Delete?
    requires c.delayed[i].name == c.ready[0].name && c.delayed[i].version < c.ready[0].version
    requires forall k :: 0 < k < |c.ready| ==> c.ready[k].name != c.ready[0].name
    ensures IsRun(states', steps', hists') && states <= states'
    ensures !Monotone(states'[|steps'|].handed)
    ensures
      var cache := states'[|steps'|].cache;
      c.delayed[i].name in cache && cache[c.delayed[i].name] == c.delayed[i].version
  {
    var delete, older := c.ready[0], c.delayed[i];
    var c1 := Take(c, Process(true));
    assert c1 == Settle(c);
    states', steps', hists' := Extend(states, steps, hists, c, hist, Process(true), c1);
    var c2 := Take(c1, Mature(i));
    assert c2.ready == c.ready[1..] + [older];
    assert forall k :: 0 <= k < |c.ready| - 1 ==> c2.ready[k] == c.ready[k + 1];
    states', steps', hists' := Extend(states', steps', hists', c1, hist, Mature(i), c2);
    var c3;
    states', steps', hists', c3 := WorkThrough(states', steps', hists', c2, hist, older);
    var c4 := Take(c3, Process(true));
    states', steps', hists' := Extend(states', steps', hists', c3, hist, Process(true), c4);
    assert c4.handed == c3.handed + [older];
    assert c2.handed[|c.handed|] == delete;
    assert c4.handed[|c.handed|] == c3.handed[|c.handed|] == delete && c4.handed[|c3.handed|] == older;
  }

  /** Such a state is reached: an add fails, then the object is deleted. */
  lemma DeleteMeetsOlderRetry(name: string)
    returns (states: seq<Controller>, steps: seq<Step>, hists: seq<seq<Item>>)
    ensures
      var add, delete := Item(0, Add, name, 1), Item(1, Delete, name, 2);
      RunTo(states, steps, hists, Controller([delete], [add], map[add := 1], map[name := 1], [add]), [add, delete])
  {
    var add, delete := Item(0, Add, name, 1), Item(1, Delete, name, 2);
    var s1 := Controller([add], [], map[], map[], []);
    var s2 := Controller([], [add], map[add := 1], map[name := 1], [add]);
    states, steps, hists := [EMPTY], [], [[]];
    states, steps, hists := Extend(states, steps, hists, EMPTY, [], Enqueue(add), s1);
    states, steps, hists := Extend(states, steps, hists, s1, [add], Process(false), s2);
    states, steps, hists := Extend(states, steps, hists, s2, [add], Enqueue(delete), s2.(ready := [delete]));
  }

  lemma DeletedObjectComesBack(name: string)
    returns (states: seq<Controller>, steps: seq<Step>, hists: seq<seq<Item>>)
    ensures IsRun(states, steps, hists)
    ensures !Monotone(states[|steps|].handed)
    ensures name in states[|steps|].cache && states[|steps|].cache[name] == 1
  {
    var add, delete := Item(0, Add, name, 1), Item(1, Delete, name, 2);
    states, steps, hists := DeleteMeetsOlderRetry(name);
    states, steps, hists := OlderRetryGetsThrough(states, steps, hists, states[|steps|], hists[|steps|], 0);
  }

  // ----- why an event leaves ----------------------------------------------------------------------

  /** Why the head of `c` is not pending any more in `c'`: it was handled successfully, its
      three attempts are used up, or it is a retry that a newer cached version makes pointless. */
  ghost predicate Leaves(c: Controller, s: Step, c': Controller) {
    && s.Process? && c.ready != []
    && var x := c.ready[0];
       || (s.ok && c'.handed == c.handed + [x])
       || (c'.handed == c.handed + [x] && multiset(c'.handed)[x] == 3)
       || (x in c.handed && c'.handed == c.handed && x.name in c'.cache && x.version < c'.cache[x.name])
  }

  lemma OwnVersionIsCurrent(cache: map<string, nat>, item: Item)
    ensures ShouldRetry(Cached(cache, item), item)
  {
  }

  /** An event leaves for one of the three reasons only: a failing one is retried until its
      attempts are used up or it is out of date. */
  lemma StepLeaves(c: Controller, hist: seq<Item>, s: Step, x: Item)
    requires Bookkeeping(c, hist) && Enabled(c, s) && OrderlyStep(hist, s)
    requires Pending(c, x) && !Pending(Take(c, s), x)
    ensures s.Process? && c.ready[0] == x && Leaves(c, s, Take(c, s))
  {
    match s
    case Enqueue(_) =>
    case Mature(i) => WithoutOne(c.delayed, i);
    case Process(ok) =>
      HeadOnce(c);
      OwnVersionIsCurrent(c.cache, c.ready[0]);
  }

  /** When and why a queued event has left, over every run. */
  lemma {:induction false} EventLeaves(states: seq<Controller>, steps: seq<Step>, hists: seq<seq<Item>>, i: nat, x: Item)
    returns (k: nat)
    requires IsRun(states, steps, hists) && i < |states| && x in hists[i] && !Pending(states[i], x)
    ensures k < i && Pending(states[k], x) && !Pending(states[k + 1], x)
    ensures steps[k].Process? && states[k].ready[0] == x && Leaves(states[k], steps[k], states[k + 1])
  {
    RunStep(states, steps, hists, i - 1);
    AttemptsBounded(states, steps, hists, i - 1);
    if Pending(states[i - 1], x) {
      k := i - 1;
      StepLeaves(states[k], hists[k], steps[k], x);
    } else {
      var s := steps[i - 1];
      assert s.Enqueue? ==> s.item in states[i].ready;
      k := EventLeaves(states, steps, hists, i - 1, x);
    }
  }

  // ----- draining --------------------------------------------------------------------------------

  function ReadyWork(items: seq<Item>, requeues: map<Item, nat>): nat {
    if items == [] then 0
    else 2 * (MAX_RETRIES + 1 - Capped(requeues, items[0])) + 1 + ReadyWork(items[1..], requeues)
  }

  function DelayedWork(items: seq<Item>, requeues: map<Item, nat>): nat {
    if items == [] then 0
    else 2 * (MAX_RETRIES + 1 - Capped(requeues, items[0])) + 2 + DelayedWork(items[1..], requeues)
  }

  function Capped(requeues: map<Item, nat>, x: Item): (n: nat)
    ensures n <= MAX_RETRIES + 1
  {
    if x !in requeues then 0 else if requeues[x] <= MAX_RETRIES then requeues[x] else MAX_RETRIES + 1
  }

  /** Passes still to come, back-offs included. */
  function Work(c: Controller): nat {
    ReadyWork(c.ready, c.requeues) + DelayedWork(c.delayed, c.requeues)
  }

  lemma {:induction false} ReadyWorkAppend(a: seq<Item>, x: Item, r: map<Item, nat>)
    ensures ReadyWork(a + [x], r) == ReadyWork(a, r) + 2 * (MAX_RETRIES + 1 - Capped(r, x)) + 1
  {
    if a != [] {
      assert (a + [x])[1..] == a[1..] + [x];
      ReadyWorkAppend(a[1..], x, r);
    }
  }

  lemma {:induction false} DelayedWorkAt(a: seq<Item>, i: nat, r: map<Item, nat>)
    requires i < |a|
    ensures DelayedWork(a, r) ==
      DelayedWork(a[..i] + a[i + 1..], r) + 2 * (MAX_RETRIES + 1 - Capped(r, a[i])) + 2
  {
    if i == 0 {
      assert a[..0] + a[1..] == a[1..];
    } else {
      DelayedWorkAt(a[1..], i - 1, r);
      assert (a[..i] + a[i + 1..])[1..] == a[1..][..i - 1] + a[1..][i..];
    }
  }

  /** The count of one item matters only where it occurs. */
  lemma {:induction false} WorkFrame(a: seq<Item>, r: map<Item, nat>, r': map<Item, nat>)
    requires forall x :: x in a ==> Capped(r, x) == Capped(r', x)
    ensures ReadyWork(a, r) == ReadyWork(a, r') && DelayedWork(a, r) == DelayedWork(a, r')
  {
    if a != [] {
      assert a[0] in a;
      assert forall x :: x in a[1..] ==> x in a;
      WorkFrame(a[1..], r, r');
    }
  }

  /** Only the head's count changes, so the work of all other events stays. */
  lemma RestOfWork(c: Controller, r: map<Item, nat>)
    requires Separate(c) && c.ready != []
    requires forall x :: x != c.ready[0] ==> Capped(r, x) == Capped(c.requeues, x)
    ensures Work(c) == 2 * (MAX_RETRIES + 1 - Capped(c.requeues, c.ready[0])) + 1 +
      ReadyWork(c.ready[1..], r) + DelayedWork(c.delayed, r)
  {
    HeadOnce(c);
    WorkFrame(c.ready[1..], c.requeues, r);
    WorkFrame(c.delayed, c.requeues, r);
  }

  lemma RetryLessWork(c: Controller)
    requires Separate(c) && c.ready != [] && NumRequeues(c, c.ready[0]) < MAX_RETRIES
    ensures Work(Retry(c)) < Work(c)
  {
    var r := Retry(c).requeues;
    RestOfWork(c, r);
    DelayedWorkAt(c.delayed + [c.ready[0]], |c.delayed|, r);
    assert (c.delayed + [c.ready[0]])[..|c.delayed|] + (c.delayed + [c.ready[0]])[|c.delayed| + 1..] == c.delayed;
  }

  lemma ProcessLessWork(c: Controller, ok: bool)
    requires Separate(c) && c.ready != []
    ensures Work(ProcessNext(c, ok)) < Work(c)
  {
    if ProcessNext(c, ok) == Retry(c) && NumRequeues(c, c.ready[0]) < MAX_RETRIES {
      RetryLessWork(c);
    } else {
      RestOfWork(c, c.requeues - {c.ready[0]});
    }
  }

  lemma StepLessWork(c: Controller, hist: seq<Item>, s: Step)
    requires Bookkeeping(c, hist) && Enabled(c, s) && !s.Enqueue?
    ensures Work(Take(c, s)) < Work(c)
  {
    match s
    case Mature(i) =>
      ReadyWorkAppend(c.ready, c.delayed[i], c.requeues);
      DelayedWorkAt(c.delayed, i, c.requeues);
    case Process(ok) => ProcessLessWork(c, ok);
  }

  lemma {:induction false} DescentBound(w: seq<nat>, first: nat, i: nat)
    requires first <= i < |w| && forall k :: first <= k < i ==> w[k + 1] < w[k]
    ensures w[i] + (i - first) <= w[first]
    decreases i
  {
    if i > first {
      DescentBound(w, first, i - 1);
      assert w[i - 1 + 1] < w[i - 1];
    }
  }

  lemma QuietStepLessWork(states: seq<Controller>, steps: seq<Step>, hists: seq<seq<Item>>, k: nat)
    requires IsRun(states, steps, hists) && k < |steps| && !steps[k].Enqueue?
    ensures Work(states[k + 1]) < Work(states[k])
  {
    AttemptsBounded(states, steps, hists, k);
    RunStep(states, steps, hists, k);
    StepLessWork(states[k], hists[k], steps[k]);
  }

  /** Only arrivals are possible. */
  ghost predicate Idle(c: Controller) {
    forall s :: Enabled(c, s) ==> s.Enqueue?
  }

  lemma IdleMeansDrained(c: Controller)
    ensures Idle(c) <==> c.ready == [] && c.delayed == []
  {
    if c.ready != [] {
      assert Enabled(c, Process(true));
    }
    if c.delayed != [] {
      assert Enabled(c, Mature(0));
    }
  }

  /** Once no new events arrive, every run ends within `Work` steps, and it can only end
      with nothing ready and nothing delayed: the queue drains. */
  lemma QueueDrains(
      states: seq<Controller>, steps: seq<Step>, hists: seq<seq<Item>>, quiet: nat, i: nat)
    requires IsRun(states, steps, hists) && quiet <= i < |states|
    requires forall k :: quiet <= k < |steps| ==> !steps[k].Enqueue?
    ensures Work(states[i]) + (i - quiet) <= Work(states[quiet])
    ensures Idle(states[i]) <==> states[i].ready == [] && states[i].delayed == []
  {
    var w: seq<nat> := seq(|states|, k requires 0 <= k < |states| => Work(states[k]));
    forall k | quiet <= k < i
      ensures w[k + 1] < w[k]
    {
      QuietStepLessWork(states, steps, hists, k);
    }
    DescentBound(w, quiet, i);
    IdleMeansDrained(states[i]);
  }
}
