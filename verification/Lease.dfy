/** One pod's periodic check of the shared lease row. */
module LeaseCheck {

  /** A lease without an owner has owner "". */
  datatype Lease = Lease(name: string, owner: string, updated: int)

  const SKIP_LEASE_POD := "SKIP-LEASE-POD"

  datatype Mode = Mode(readWrite: bool, initialized: bool)

  datatype Outcome = Outcome(mode: Mode, write: bool)

  /** The decision of a check that could read the lease: the pod's new mode, and whether
      it puts itself with the current time into the row. */
  function Decide(pod: string, mode: Mode, lease: Lease, now: int, timeout: int, warmingUp: bool): Outcome {
    if lease.owner == "" then Outcome(mode, true)
    else if lease.owner == SKIP_LEASE_POD then Outcome(Mode(false, true), false)
    else if pod == lease.owner && warmingUp then Outcome(Mode(false, true), false)
    else if pod == lease.owner then Outcome(Mode(true, true), true)
    else if lease.updated < now - timeout && !warmingUp then Outcome(mode, true)
    else Outcome(Mode(false, true), false)
  }

  ghost predicate IsFirstNamed(leases: seq<Lease>, name: string, lease: Lease) {
    if exists i :: 0 <= i < |leases| && leases[i].name == name
    then exists i :: 0 <= i < |leases| && leases[i] == lease && lease.name == name &&
                     forall k :: 0 <= k < i ==> leases[k].name != name
    else lease == Lease(name, "", 0)
  }

  lemma FirstNamedUnique(leases: seq<Lease>, name: string, a: Lease, b: Lease)
    requires IsFirstNamed(leases, name, a) && IsFirstNamed(leases, name, b)
    ensures a == b
  {
    if exists i :: 0 <= i < |leases| && leases[i].name == name {
      var i :| 0 <= i < |leases| && leases[i] == a && a.name == name &&
               forall k :: 0 <= k < i ==> leases[k].name != name;
      var j :| 0 <= j < |leases| && leases[j] == b && b.name == name &&
               forall k :: 0 <= k < j ==> leases[k].name != name;
      assert leases[i].name == name && leases[j].name == name;
    }
  }

  method FilterOrCreateLease(leases: seq<Lease>, name: string) returns (lease: Lease)
    ensures IsFirstNamed(leases, name, lease)
  {
    for i := 0 to |leases|
      invariant forall k :: 0 <= k < i ==> leases[k].name != name
    {
      if leases[i].name == name {
        return leases[i];
      }
    }
    return Lease(name, "", 0);
  }

  /** The lease table holds one item per name; a put replaces the item of its name. */
  class LeaseTable {
    var items: map<string, Lease>

    ghost predicate Valid() reads this {
      forall n :: n in items ==> items[n].name == n
    }

    function Row(name: string): Lease reads this {
      if name in items then items[name] else Lease(name, "", 0)
    }

    /** The scan lists every item once, in some order. */
    method Scan() returns (leases: seq<Lease>)
      requires Valid()
      ensures forall l :: l in leases <==> l.name in items && items[l.name] == l
    {
      leases := [];
      var left := items.Keys;
      while left != {}
        invariant left <= items.Keys
        invariant forall l :: l in leases <==> l.name in items && l.name !in left && items[l.name] == l
        decreases left
      {
        var n :| n in left;
        leases := leases + [items[n]];
        left := left - {n};
      }
    }

    method PutItem(lease: Lease)
      requires Valid()
      modifies this
      ensures Valid() && items == old(items)[lease.name := lease]
    {
      items := items[lease.name := lease];
    }
  }

  /** The global state a check changes. */
  class AdmiralState {
    var mode: Mode

    /** One check. `reachable` says whether the table could be read, `arrives` whether
        the put took effect: its error is ignored either way. */
    method ExecuteStateCheck(
        table: LeaseTable, leaseName: string, pod: string, now: int, timeout: int,
        warmingUp: bool, reachable: bool, arrives: bool)
      requires table.Valid()
      modifies this, table
      ensures table.Valid()
      ensures !reachable ==> mode == old(mode).(readWrite := false) && table.items == old(table.items)
      ensures reachable ==>
        var d := Decide(pod, old(mode), old(table.Row(leaseName)), now, timeout, warmingUp);
        && mode == d.mode
        && table.items == if d.write && arrives
                          then old(table.items)[leaseName := Lease(leaseName, pod, now)]
                          else old(table.items)
    {
      if !reachable {
        mode := mode.(readWrite := false);
        return;
      }
      var leases := table.Scan();
      var lease := FilterOrCreateLease(leases, leaseName);
      assert lease == table.Row(leaseName) by {
        if leaseName in table.items {
          assert table.items[leaseName] in leases;
        }
      }
      if lease.owner == "" {
        if arrives {
          table.PutItem(Lease(leaseName, pod, now));
        }
      } else if lease.owner == SKIP_LEASE_POD {
        mode := Mode(false, true);
      } else if pod == lease.owner && warmingUp {
        mode := Mode(false, true);
      } else if pod == lease.owner {
        mode := Mode(true, true);
        if arrives {
          table.PutItem(Lease(leaseName, pod, now));
        }
      } else if lease.updated < now - timeout && !warmingUp {
        if arrives {
          table.PutItem(Lease(leaseName, pod, now));
        }
      } else {
        mode := Mode(false, true);
      }
    }
  }
}

/** All pods checking one lease: who may write, and how long failover takes. */
module LeaseProtocol {
  import opened LeaseCheck

  /** `last` is the time of the latest check of this incarnation, or of its start.
      `seen` holds the pods that checked, crashed or started since this pod's latest
      check in any incarnation (`ever` says there was one). */
  datatype Pod = Pod(
    live: bool, mode: Mode, warmUntil: int, last: int, ever: bool, seen: set<string>)

  datatype World = World(now: int, lease: Lease, pods: map<string, Pod>)

  datatype Event =
    | Tick
    | Check(pod: string, reachable: bool, arrives: bool)
    | Crash(pod: string)
    | Start(pod: string, warmup: nat)
    | OperatorSkips

  predicate Live(w: World, p: string) {
    p in w.pods && w.pods[p].live
  }

  predicate Writes(w: World, p: string) {
    Live(w, p) && w.pods[p].mode.readWrite
  }

  predicate Warm(w: World, p: string) {
    Live(w, p) && w.pods[p].warmUntil <= w.now
  }

  predicate Enabled(w: World, e: Event) {
    match e
    case Tick => true
    case Check(p, _, _) => Live(w, p)
    case Crash(p) => Live(w, p)
    case Start(p, _) => p in w.pods && !w.pods[p].live
    case OperatorSkips => true
  }

  /** Everybody else notes that `p` checked, crashed or started. */
  function Noted(pods: map<string, Pod>, p: string): map<string, Pod> {
    map q | q in pods :: if q == p then pods[q] else pods[q].(seen := pods[q].seen + {p})
  }

  function CheckStep(w: World, p: string, reachable: bool, arrives: bool, timeout: int): World
    requires Live(w, p)
  {
    var pod := w.pods[p];
    var d := if reachable
             then Decide(p, pod.mode, w.lease, w.now, timeout, !Warm(w, p))
             else Outcome(pod.mode.(readWrite := false), false);
    var pod' := pod.(mode := d.mode, last := w.now, ever := true, seen := {});
    World(
      w.now,
      if d.write && arrives then w.lease.(owner := p, updated := w.now) else w.lease,
      Noted(w.pods, p)[p := pod'])
  }

  function Step(w: World, e: Event, timeout: int): World
    requires Enabled(w, e)
  {
    match e
    case Tick => w.(now := w.now + 1)
    case Check(p, reachable, arrives) => CheckStep(w, p, reachable, arrives, timeout)
    case Crash(p) =>
      w.(pods := Noted(w.pods, p)[p := w.pods[p].(live := false, mode := Mode(false, false))])
    case Start(p, warmup) =>
      w.(pods := Noted(w.pods, p)[p := w.pods[p].(
        live := true, mode := Mode(false, false), warmUntil := w.now + warmup, last := w.now)])
    case OperatorSkips => w.(lease := w.lease.(owner := SKIP_LEASE_POD))
  }

  /** Any lease row, any pods; nobody has entered read-write mode yet. */
  predicate Init(w: World) {
    && w.lease.owner != SKIP_LEASE_POD
    && forall p :: p in w.pods ==> !w.pods[p].mode.readWrite && !w.pods[p].ever
  }

  ghost predicate IsRun(worlds: seq<World>, events: seq<Event>, timeout: int) {
    && |worlds| == |events| + 1
    && forall i :: 0 <= i < |events| ==>
         Enabled(worlds[i], events[i]) && worlds[i + 1] == Step(worlds[i], events[i], timeout)
  }

  // ----- mutual exclusion -------------------------------------------------------------

  /** A writing pod checks again within the timeout. */
  predicate WriterInTime(w: World, e: Event, timeout: int) {
    e.Check? && Writes(w, e.pod) ==> w.now - w.pods[e.pod].last <= timeout
  }

  /** Between two checks of one pod every other live pod has checked (or restarted). */
  predicate TakesTurns(w: World, e: Event) {
    e.Check? && Live(w, e.pod) && w.pods[e.pod].ever ==>
      forall q :: q in w.pods && q != e.pod && w.pods[q].live ==> q in w.pods[e.pod].seen
  }

  /** A writer that lost the row is unopposed: the new owner has not checked since it took
      the row without the old writer having checked first. */
  predicate Unopposed(w: World, p: string) {
    w.lease.owner in {p, "", SKIP_LEASE_POD} ||
    (&& w.lease.owner in w.pods
     && w.pods[w.lease.owner].ever
     && p in w.pods
     && p !in w.pods[w.lease.owner].seen
     && w.pods[p].last <= w.lease.updated)
  }

  ghost predicate SafetyInv(w: World) {
    && (forall p :: Writes(w, p) ==> Unopposed(w, p) && w.pods[p].last <= w.now && w.pods[p].ever)
    && (forall p, q :: Writes(w, p) && Writes(w, q) ==> p == q)
  }

  lemma CheckKeepsSafety(w: World, e: Event, timeout: int)
    requires SafetyInv(w) && Enabled(w, e) && e.Check?
    requires WriterInTime(w, e, timeout) && TakesTurns(w, e)
    ensures SafetyInv(Step(w, e, timeout))
  {
    var p, w' := e.pod, Step(w, e, timeout);
    forall q | q != p && Writes(w', q)
      ensures Writes(w, q) && Unopposed(w', q)
    {
      assert Writes(w, q) && Unopposed(w, q);
    }
    if Writes(w', p) {
      assert Writes(w, p) ==> Unopposed(w, p);
      if !Writes(w, p) {
        // p was confirmed by the row; a rival would have checked in between and stepped down
        forall q | q != p && Writes(w', q)
          ensures false
        {
          assert Writes(w, q) && Unopposed(w, q);
        }
      }
    }
  }

  lemma StepKeepsSafety(w: World, e: Event, timeout: int)
    requires SafetyInv(w) && Enabled(w, e)
    requires WriterInTime(w, e, timeout) && TakesTurns(w, e)
    ensures SafetyInv(Step(w, e, timeout))
  {
    if e.Check? {
      CheckKeepsSafety(w, e, timeout);
    } else {
      var w' := Step(w, e, timeout);
      forall p | Writes(w', p)
        ensures Writes(w, p) && Unopposed(w', p)
      {
        assert Writes(w, p) && Unopposed(w, p);
      }
    }
  }

  /** Main result: in no reachable state do two pods write, although puts may be lost
      silently, reads may fail, and pods may crash and restart. */
  lemma {:induction false} MutualExclusion(worlds: seq<World>, events: seq<Event>, timeout: int, i: nat)
    requires IsRun(worlds, events, timeout) && Init(worlds[0]) && i < |worlds|
    requires forall k :: 0 <= k < |events| ==>
      WriterInTime(worlds[k], events[k], timeout) && TakesTurns(worlds[k], events[k])
    ensures SafetyInv(worlds[i])
    ensures forall p, q :: Writes(worlds[i], p) && Writes(worlds[i], q) ==> p == q
  {
    if i > 0 {
      MutualExclusion(worlds, events, timeout, i - 1);
      StepKeepsSafety(worlds[i - 1], events[i - 1], timeout);
    }
  }

  // ----- both scheduling conditions are needed ------------------------------------------

  function Two(now: int, owner: string, updated: int, a: Pod, b: Pod): World {
    World(now, Lease("l", owner, updated), map["a" := a, "b" := b])
  }

  function Checked(now: int, readWrite: bool, initialized: bool, seen: set<string>): Pod {
    Pod(true, Mode(readWrite, initialized), 0, now, true, seen)
  }

  /** A run of the two pods with timeout 1 that starts afresh, ends in `last`, and keeps
      one of the two scheduling conditions throughout. */
  ghost predicate RunTo(worlds: seq<World>, events: seq<Event>, last: World, turns: bool) {
    && IsRun(worlds, events, 1) && Init(worlds[0]) && worlds[|events|] == last
    && forall k :: 0 <= k < |events| ==>
         if turns then TakesTurns(worlds[k], events[k]) else WriterInTime(worlds[k], events[k], 1)
  }

  lemma Extend(worlds: seq<World>, events: seq<Event>, w: World, turns: bool, e: Event, w': World)
    returns (ws: seq<World>, es: seq<Event>)
    requires RunTo(worlds, events, w, turns) && Enabled(w, e) && w' == Step(w, e, 1)
    requires if turns then TakesTurns(w, e) else WriterInTime(w, e, 1)
    ensures RunTo(ws, es, w', turns)
  {
    ws, es := worlds + [w'], events + [e];
  }

  /** One check of warmed-up pod "a" or "b", spelled out. */
  lemma CheckOfTwo(now: int, owner: string, updated: int, a: Pod, b: Pod, checksA: bool, arrives: bool, w': World)
    requires a.live && b.live && a.warmUntil <= now && b.warmUntil <= now
    requires
      var pod := if checksA then a else b;
      var p := if checksA then "a" else "b";
      var d := Decide(p, pod.mode, Lease("l", owner, updated), now, 1, false);
      var pod' := Pod(true, d.mode, pod.warmUntil, now, true, {});
      var put := d.write && arrives;
      w' == Two(now, if put then p else owner, if put then now else updated,
                if checksA then pod' else a.(seen := a.seen + {"b"}),
                if checksA then b.(seen := b.seen + {"a"}) else pod')
    ensures Step(Two(now, owner, updated, a, b), Check(if checksA then "a" else "b", true, arrives), 1) == w'
  {
  }

  /** A stalled writer and no turn-taking: the pod that took the row confirms itself. */
  lemma WithoutTurnsTwoWriters() returns (worlds: seq<World>, events: seq<Event>)
    ensures IsRun(worlds, events, 1) && Init(worlds[0])
    ensures forall k :: 0 <= k < |events| ==> WriterInTime(worlds[k], events[k], 1)
    ensures Writes(worlds[|events|], "a") && Writes(worlds[|events|], "b")
  {
    var a, b := Check("a", true, true), Check("b", true, true);
    var nobody: set<string> := {};
    assert nobody + {"a"} == {"a"} && nobody + {"b"} == {"b"} && {"b"} + {"b"} == {"b"} && {"a"} + {"a"} == {"a"};
    assert |"a"| == |"b"| == 1 && |SKIP_LEASE_POD| == 14;
    var unchecked := Pod(true, Mode(false, false), 0, 0, false, {});
    var pa, pb := Checked(0, true, true, {}), unchecked.(seen := {"a"});
    var w0 := Two(0, "", 0, unchecked, unchecked);
    var w1 := Two(0, "a", 0, Checked(0, false, false, {}), pb);
    var w2 := Two(0, "a", 0, pa, pb);
    var w3 := Two(1, "a", 0, pa, pb);
    var w4 := Two(2, "a", 0, pa, pb);
    var w5 := Two(2, "b", 2, pa.(seen := {"b"}), Checked(2, false, false, {}));
    var w6 := Two(2, "b", 2, pa.(seen := {"b"}), Checked(2, true, true, {}));
    worlds, events := [w0], [];
    CheckOfTwo(0, "", 0, unchecked, unchecked, true, true, w1);
    worlds, events := Extend(worlds, events, w0, false, a, w1);
    CheckOfTwo(0, "a", 0, Checked(0, false, false, {}), pb, true, true, w2);
    worlds, events := Extend(worlds, events, w1, false, a, w2);
    worlds, events := Extend(worlds, events, w2, false, Tick, w3);
    worlds, events := Extend(worlds, events, w3, false, Tick, w4);
    CheckOfTwo(2, "a", 0, pa, pb, false, true, w5);
    worlds, events := Extend(worlds, events, w4, false, b, w5);
    CheckOfTwo(2, "b", 2, pa.(seen := {"b"}), Checked(2, false, false, {}), false, true, w6);
    worlds, events := Extend(worlds, events, w5, false, b, w6);
  }

  /** "a" writes and "b" has checked after it: the row is renewed at time 0. */
  lemma BothChecked() returns (worlds: seq<World>, events: seq<Event>)
    ensures RunTo(worlds, events, Two(0, "a", 0, Checked(0, true, true, {}), Checked(0, false, true, {"a"})), true)
  {
    var a, b := Check("a", true, true), Check("b", true, true);
    var nobody: set<string> := {};
    assert nobody + {"a"} == {"a"} && nobody + {"b"} == {"b"};
    assert |"a"| == |"b"| == 1 && |SKIP_LEASE_POD| == 14;
    var unchecked := Pod(true, Mode(false, false), 0, 0, false, {});
    var seenA := unchecked.(seen := {"a"});
    var pb := Checked(0, false, true, {});
    var w0 := Two(0, "", 0, unchecked, unchecked);
    var w1 := Two(0, "a", 0, Checked(0, false, false, {}), seenA);
    var w2 := Two(0, "a", 0, Checked(0, false, false, {"b"}), pb);
    var w3 := Two(0, "a", 0, Checked(0, true, true, {}), pb.(seen := {"a"}));
    worlds, events := [w0], [];
    CheckOfTwo(0, "", 0, unchecked, unchecked, true, true, w1);
    worlds, events := Extend(worlds, events, w0, true, a, w1);
    CheckOfTwo(0, "a", 0, Checked(0, false, false, {}), seenA, false, true, w2);
    worlds, events := Extend(worlds, events, w1, true, b, w2);
    CheckOfTwo(0, "a", 0, Checked(0, false, false, {"b"}), pb, true, true, w3);
    worlds, events := Extend(worlds, events, w2, true, a, w3);
  }

  /** A writer that pauses for longer than the timeout and whose put is then lost stays
      a writer beside the confirmed new owner, even with strict turns. */
  lemma WithoutTimelinessTwoWriters() returns (worlds: seq<World>, events: seq<Event>)
    ensures IsRun(worlds, events, 1) && Init(worlds[0])
    ensures forall k :: 0 <= k < |events| ==> TakesTurns(worlds[k], events[k])
    ensures Writes(worlds[|events|], "a") && Writes(worlds[|events|], "b")
  {
    var b := Check("b", true, true);
    var nobody: set<string> := {};
    assert nobody + {"a"} == {"a"} && nobody + {"b"} == {"b"};
    assert |"a"| == |"b"| == 1 && |SKIP_LEASE_POD| == 14;
    var pa, pb := Checked(0, true, true, {}), Checked(0, false, true, {"a"});
    var paused, taker := pa.(seen := {"b"}), Checked(2, false, true, {});
    var w3 := Two(0, "a", 0, pa, pb);
    var w4 := Two(1, "a", 0, pa, pb);
    var w5 := Two(2, "a", 0, pa, pb);
    var w6 := Two(2, "b", 2, paused, taker);
    var w7 := Two(3, "b", 2, paused, taker);
    var w8 := Two(4, "b", 2, paused, taker);
    var w9 := Two(4, "b", 2, Checked(4, true, true, {}), taker.(seen := {"a"}));
    var w10 := Two(4, "b", 4, Checked(4, true, true, {"b"}), Checked(4, true, true, {}));
    worlds, events := BothChecked();
    worlds, events := Extend(worlds, events, w3, true, Tick, w4);
    worlds, events := Extend(worlds, events, w4, true, Tick, w5);
    CheckOfTwo(2, "a", 0, pa, pb, false, true, w6);
    worlds, events := Extend(worlds, events, w5, true, b, w6);
    worlds, events := Extend(worlds, events, w6, true, Tick, w7);
    worlds, events := Extend(worlds, events, w7, true, Tick, w8);
    CheckOfTwo(4, "b", 2, paused, taker, true, false, w9);
    worlds, events := Extend(worlds, events, w8, true, Check("a", true, false), w9);
    CheckOfTwo(4, "b", 2, Checked(4, true, true, {}), taker.(seen := {"a"}), false, true, w10);
    worlds, events := Extend(worlds, events, w9, true, b, w10);
  }

  // ----- warm-up and blind checks -----------------------------------------------------------------

  /** Writers are out of their warm-up, and know their state. */
  ghost predicate WritersReady(w: World) {
    forall p :: Writes(w, p) ==> Warm(w, p) && w.pods[p].mode.initialized
  }

  lemma StepKeepsWritersReady(w: World, e: Event, timeout: int)
    requires WritersReady(w) && Enabled(w, e)
    ensures WritersReady(Step(w, e, timeout))
  {
    var w' := Step(w, e, timeout);
    forall p | Writes(w', p)
      ensures Warm(w', p) && w'.pods[p].mode.initialized
    {
      if !(e.Check? && e.pod == p) {
        assert Writes(w, p);
      } else if Writes(w, p) {
        assert Warm(w, p);
      }
    }
  }

  /** Over every run, without any condition on its timing, only pods that have warmed up write. */
  lemma {:induction false} RunWritersReady(worlds: seq<World>, events: seq<Event>, timeout: int, i: nat)
    requires IsRun(worlds, events, timeout) && Init(worlds[0]) && i < |worlds|
    ensures WritersReady(worlds[i])
  {
    if i > 0 {
      RunWritersReady(worlds, events, timeout, i - 1);
      StepKeepsWritersReady(worlds[i - 1], events[i - 1], timeout);
    }
  }

  /** A pod that is warming up neither renews its own row nor takes another's, so that the row
      lapses and a warm pod can take over. */
  lemma WarmingPodLeavesOwnedRow(w: World, e: Event, timeout: int)
    requires Enabled(w, e) && e.Check? && !Warm(w, e.pod) && w.lease.owner != ""
    ensures Step(w, e, timeout).lease == w.lease
    ensures !Writes(Step(w, e, timeout), e.pod)
  {
  }

  /** A check that cannot read the row stops writing and leaves the row. */
  lemma BlindCheckStopsWriting(w: World, e: Event, timeout: int)
    requires Enabled(w, e) && e.Check? && !e.reachable
    ensures Step(w, e, timeout).lease == w.lease
    ensures !Writes(Step(w, e, timeout), e.pod)
  {
  }

  /** A row without an owner goes to any pod that checks it, warm or not. */
  lemma FreeRowIsTaken(w: World, e: Event, timeout: int)
    requires Enabled(w, e) && e.Check? && e.reachable && w.lease.owner == ""
    ensures Step(w, e, timeout).lease ==
            if e.arrives then w.lease.(owner := e.pod, updated := w.now) else w.lease
  {
  }

  /** What a check of a readable row knows afterwards: its state, unless it has only now asked
      for the row and waits for the confirming check. */
  lemma CheckInitializes(w: World, e: Event, timeout: int)
    requires Enabled(w, e) && e.Check? && e.reachable
    ensures
      var before, after := w.pods[e.pod].mode, Step(w, e, timeout).pods[e.pod].mode;
      var lapsed := w.lease.updated < w.now - timeout;
      var asks := w.lease.owner == "" ||
        (w.lease.owner != e.pod && w.lease.owner != "SKIP-LEASE-POD" && lapsed && Warm(w, e.pod));
      after == if asks then before else after.(initialized := true)
  {
  }

  // ----- the skip owner parks every pod --------------------------------------------------

  /** Once the row names the skip owner nobody ever takes it, and a pod that checks stops writing. */
  lemma SkipIsFinal(w: World, e: Event, timeout: int)
    requires Enabled(w, e) && w.lease.owner == SKIP_LEASE_POD
    ensures Step(w, e, timeout).lease.owner == SKIP_LEASE_POD
    ensures forall p :: Writes(Step(w, e, timeout), p) ==> Writes(w, p) && !(e.Check? && e.pod == p)
  {
  }

  // ----- stability and failover -----------------------------------------------------------

  predicate NamesOk(w: World) {
    "" !in w.pods && SKIP_LEASE_POD !in w.pods
  }

  /** `p` owns the row through its latest check, writes, and is out of its warm-up. */
  predicate Holds(w: World, p: string) {
    Writes(w, p) && Warm(w, p) && w.lease.owner == p && w.lease.updated == w.pods[p].last
  }

  /** Time does not pass beyond `gap` since the latest check of `p`. */
  predicate Punctual(w: World, e: Event, p: string, gap: int) {
    e.Tick? && Live(w, p) ==> w.now + 1 - w.pods[p].last <= gap
  }

  predicate Undisturbed(e: Event, p: string) {
    match e
    case Check(q, reachable, arrives) => q == p ==> reachable && arrives
    case Crash(q) => q != p
    case OperatorSkips => false
    case _ => true
  }

  lemma StepKeepsHolder(w: World, e: Event, p: string, timeout: int)
    requires NamesOk(w) && Enabled(w, e) && Holds(w, p) && w.now - w.pods[p].last <= timeout
    requires Punctual(w, e, p, timeout) && Undisturbed(e, p) && timeout >= 0
    ensures
      var w' := Step(w, e, timeout);
      NamesOk(w') && Holds(w', p) && w'.now - w'.pods[p].last <= timeout
  {
  }

  /** A live, warmed-up owner that can reach the table and checks within the timeout is
      never displaced, whatever the other pods do or suffer. */
  lemma {:induction false} OwnerNeverDisplaced(worlds: seq<World>, events: seq<Event>, p: string, timeout: int, i: nat)
    requires IsRun(worlds, events, timeout) && i < |worlds| && timeout >= 0
    requires NamesOk(worlds[0]) && Holds(worlds[0], p) && worlds[0].now - worlds[0].pods[p].last <= timeout
    requires forall k :: 0 <= k < |events| ==>
      Punctual(worlds[k], events[k], p, timeout) && Undisturbed(events[k], p)
    ensures NamesOk(worlds[i]) && Holds(worlds[i], p) && worlds[i].now - worlds[i].pods[p].last <= timeout
  {
    if i > 0 {
      OwnerNeverDisplaced(worlds, events, p, timeout, i - 1);
      StepKeepsHolder(worlds[i - 1], events[i - 1], p, timeout);
    }
  }

  /** The stages of a failover after a dead owner renewed for the last time at `renewed`. */
  predicate Waiting(w: World, renewed: int, timeout: int, p: string) {
    && w.lease.owner != "" && w.lease.owner != SKIP_LEASE_POD && !Live(w, w.lease.owner)
    && w.lease.updated == renewed
    && Warm(w, p) && w.pods[p].last <= renewed + timeout
  }

  predicate Confirming(w: World, renewed: int, timeout: int, wait: int, q: string) {
    && Warm(w, q) && w.lease.owner == q
    && w.lease.updated == w.pods[q].last <= renewed + timeout + wait
  }

  ghost predicate Failover(w: World, renewed: int, timeout: int, wait: int, p: string) {
    && NamesOk(w)
    && (forall q :: Live(w, q) ==> w.now - w.pods[q].last <= wait)
    && (Waiting(w, renewed, timeout, p) ||
        (exists q :: Confirming(w, renewed, timeout, wait, q)) ||
        (exists q :: Holds(w, q)))
  }

  /** No further pod dies or joins, every check reaches the table and its put arrives. */
  predicate Reliable(e: Event) {
    e.Tick? || (e.Check? && e.reachable && e.arrives)
  }

  ghost predicate AllPunctual(w: World, e: Event, wait: int) {
    forall q :: q in w.pods ==> Punctual(w, e, q, wait)
  }

  lemma StepKeepsFailover(w: World, e: Event, renewed: int, timeout: int, wait: int, p: string)
    requires Failover(w, renewed, timeout, wait, p) && Enabled(w, e)
    requires Reliable(e) && AllPunctual(w, e, wait) && 0 <= wait <= timeout
    ensures Failover(Step(w, e, timeout), renewed, timeout, wait, p)
  {
    var w' := Step(w, e, timeout);
    assert forall q :: Live(w', q) ==> Live(w, q);
    if q :| Holds(w, q) {
      StepKeepsHolder(w, e, q, timeout);
    } else if q :| Confirming(w, renewed, timeout, wait, q) {
      if e.Check? && e.pod == q {
        assert Holds(w', q);
      } else {
        assert Confirming(w', renewed, timeout, wait, q);
      }
    } else if e.Check? && w.lease.owner != e.pod && renewed < w.now - timeout && Warm(w, e.pod) {
      assert w.now - w.pods[p].last <= wait;
      assert Confirming(w', renewed, timeout, wait, e.pod);
    } else {
      assert Waiting(w', renewed, timeout, p);
    }
  }

  /** With reliable puts and a check of every live pod in every `wait`, one live
      warmed-up pod is enough: once `timeout + 2 * wait` have passed since the dead
      owner's last renewal, some pod is in read-write mode. */
  lemma {:induction false} FailoverBound(
      worlds: seq<World>, events: seq<Event>, renewed: int, timeout: int, wait: int, p: string, i: nat)
    requires IsRun(worlds, events, timeout) && i < |worlds| && 0 <= wait <= timeout
    requires NamesOk(worlds[0]) && Waiting(worlds[0], renewed, timeout, p)
    requires forall q :: Live(worlds[0], q) ==> worlds[0].now - worlds[0].pods[q].last <= wait
    requires forall k :: 0 <= k < |events| ==> Reliable(events[k]) && AllPunctual(worlds[k], events[k], wait)
    ensures Failover(worlds[i], renewed, timeout, wait, p)
    ensures worlds[i].now > renewed + timeout + 2 * wait ==> exists q :: Writes(worlds[i], q)
  {
    if i > 0 {
      FailoverBound(worlds, events, renewed, timeout, wait, p, i - 1);
      StepKeepsFailover(worlds[i - 1], events[i - 1], renewed, timeout, wait, p);
    }
    var w := worlds[i];
    if q :| Holds(w, q) {
      assert Writes(w, q);
    } else if q :| Confirming(w, renewed, timeout, wait, q) {
      assert Live(w, q);
    } else {
      assert Live(w, p);
    }
  }
}
