/** Routing policies and the envoy filters made from them: each filter is recorded under its
    policy before it is written, and a deletion works from the record. */
module FilterRecord {
  import opened Prelude

  /** `plugin` is in lower case, as it is in filter names. */
  datatype Policy = Policy(name: string, identity: string, env: string, plugin: string)

  /** A filter's name; `digested` is the text whose digest the name carries. */
  datatype FilterName = FilterName(plugin: string, digested: string, dependent: string, version: string)

  /** A filter in a cluster. */
  datatype Place = Place(cluster: string, filter: FilterName)

  const NAMESPACE := "istio-system"

  function Key(p: Policy): string {
    p.name + p.identity + p.env
  }

  function Digested(p: Policy): string {
    p.name + p.env + p.identity
  }

  // ----- the record and the clusters ----------------------------------------------------------------

  /** Policy key to cluster to filter to namespace. */
  type Records = map<string, map<string, map<FilterName, string>>>

  predicate Recorded(records: Records, key: string, x: Place) {
    key in records && x.cluster in records[key] && x.filter in records[key][x.cluster]
  }

  /** The places recorded under a key. */
  function PlacesOf(records: Records, key: string): set<Place> {
    if key !in records then {}
    else set c, f | c in records[key] && f in records[key][c] :: Place(c, f)
  }

  function Put(records: Records, key: string, x: Place): Records {
    var byCluster := if key in records then records[key] else map[];
    var byFilter := if x.cluster in byCluster then byCluster[x.cluster] else map[];
    records[key := byCluster[x.cluster := byFilter[x.filter := NAMESPACE]]]
  }

  /** Putting adds one place to one key, with the namespace of the filters. */
  lemma PutAdds(records: Records, key: string, x: Place)
    ensures forall k, y :: Recorded(Put(records, key, x), k, y) <==> Recorded(records, k, y) || (k == key && y == x)
    ensures Put(records, key, x)[key][x.cluster][x.filter] == "istio-system"
    ensures forall k, y :: Recorded(records, k, y) && (k != key || y != x) ==>
      Put(records, key, x)[k][y.cluster][y.filter] == records[k][y.cluster][y.filter]
  {
  }

  lemma RecordedIsPlaced(records: Records, key: string)
    ensures forall x :: Recorded(records, key, x) <==> x in PlacesOf(records, key)
  {
    forall x | Recorded(records, key, x)
      ensures x in PlacesOf(records, key)
    {
      assert x == Place(x.cluster, x.filter);
    }
  }

  /** Exactly `places` have been added, all to one key. */
  ghost predicate RecordsGrow(before: Records, after: Records, key: string, places: set<Place>) {
    forall k, x :: Recorded(after, k, x) <==> Recorded(before, k, x) || (k == key && x in places)
  }

  lemma RecordsGrowTwice(r0: Records, r1: Records, r2: Records, key: string, a: set<Place>, b: set<Place>)
    requires RecordsGrow(r0, r1, key, a) && RecordsGrow(r1, r2, key, b)
    ensures RecordsGrow(r0, r2, key, a + b)
  {
  }

  /** The filters living in the clusters, each with the policy it was last written for. */
  type Filters = map<Place, Policy>

  /** What becomes of the requests for one filter: all answered, the read or the write
      refused or lost, or the write carried out and its answer lost. */
  datatype Outcome = Answered | Refused | AnswerLost

  type Network = Place -> Outcome

  function Written(live: Filters, p: Policy, places: set<Place>, net: Network): Filters {
    map x | x in live.Keys + places && (x in live || net(x) != Refused) ::
      if x in places && net(x) != Refused then p else live[x]
  }

  predicate SomeUnanswered(places: set<Place>, net: Network) {
    exists x :: x in places && net(x) != Answered
  }

  /** `x` can be deleted without an error. */
  predicate DeleteAnswered(live: Filters, x: Place, net: Network) {
    x in live && net(x) == Answered
  }

  function Deleted(live: Filters, places: set<Place>, net: Network): Filters {
    map x | x in live && (x !in places || net(x) == Refused) :: live[x]
  }

  /** The in-memory record and the API servers. */
  datatype System = System(records: Records, live: Filters)

  /** `places` are recorded and written for a policy. */
  ghost predicate WriteStep(s: System, p: Policy, places: set<Place>, net: Network, t: System) {
    t.live == Written(s.live, p, places, net) && RecordsGrow(s.records, t.records, Key(p), places)
  }

  /** The recorded filters a deletion goes through. */
  function Doomed(s: System, p: Policy, clusters: set<string>): set<Place> {
    set x | x in PlacesOf(s.records, Key(p)) && x.cluster in clusters
  }

  predicate AllDeleted(live: Filters, places: set<Place>, net: Network) {
    forall x :: x in places ==> DeleteAnswered(live, x, net)
  }

  ghost predicate EraseStep(
      s: System, p: Policy, clusters: set<string>, retain: bool, net: Network, failed: bool, t: System)
  {
    && t.live == Deleted(s.live, Doomed(s, p, clusters), net)
    && (failed <==> !AllDeleted(s.live, Doomed(s, p, clusters), net))
    && t.records == if failed || retain then s.records else s.records - {Key(p)}
  }

  // ----- the service ----------------------------------------------------------------------------------

  predicate Lives(hosting: map<string, set<string>>, dependent: string, cluster: string) {
    dependent in hosting && cluster in hosting[dependent]
  }

  function OneTarget(p: Policy, cluster: string, dependent: string, versions: seq<string>): set<Place> {
    set v | v in versions :: Place(cluster, FilterName(p.plugin, Digested(p), dependent, v))
  }

  /** The filters a policy should have: one per cluster, dependent living there, and version. */
  function Targets(
      p: Policy, clusters: set<string>, dependents: seq<string>, hosting: map<string, set<string>>, versions: seq<string>)
    : set<Place>
  {
    set c, d, v | c in clusters && d in dependents && Lives(hosting, d, c) && v in versions ::
      Place(c, FilterName(p.plugin, Digested(p), d, v))
  }

  predicate SomePair(clusters: set<string>, dependents: seq<string>, hosting: map<string, set<string>>) {
    exists c, d :: c in clusters && d in dependents && Lives(hosting, d, c)
  }

  class RoutingPolicyService {
    var records: Records
    var live: Filters

    constructor ()
      ensures records == map[] && live == map[]
    {
      records, live := map[], map[];
    }

    function Now(): System
      reads this
    {
      System(records, live)
    }

    /** Puts one filter on record and creates or updates it. */
    method RecordAndWrite(p: Policy, x: Place, net: Network)
      modifies this
      ensures live == Written(old(live), p, {x}, net)
      ensures RecordsGrow(old(records), records, Key(p), {x})
    {
      PutAdds(records, Key(p), x);
      records := Put(records, Key(p), x);
      if net(x) != Refused {
        live := live[x := p];
      }
    }

    /** The filters of one dependent in one cluster, each recorded and then written. */
    method CreateOrUpdateEnvoyFilters(p: Policy, cluster: string, dependent: string, versions: seq<string>, net: Network)
      returns (failed: bool)
      modifies this
      ensures
        var places := OneTarget(p, cluster, dependent, versions);
        && live == Written(old(live), p, places, net)
        && RecordsGrow(old(records), records, Key(p), places)
        && (failed <==> versions == [] || SomeUnanswered(places, net))
    {
      if versions == [] {
        assert live == Written(live, p, {}, net);
        return true;
      }
      failed := false;
      ghost var places: set<Place> := {};
      for i := 0 to |versions|
        invariant places == OneTarget(p, cluster, dependent, versions[..i])
        invariant live == Written(old(live), p, places, net)
        invariant RecordsGrow(old(records), records, Key(p), places)
        invariant failed <==> SomeUnanswered(places, net)
      {
        var x := Place(cluster, FilterName(p.plugin, Digested(p), dependent, versions[i]));
        assert versions[..i + 1] == versions[..i] + [versions[i]];
        label before:
        RecordAndWrite(p, x, net);
        WrittenTwice(old(live), p, places, {x}, net);
        RecordsGrowTwice(old(records), old@before(records), records, Key(p), places, {x});
        places := places + {x};
        if net(x) != Answered {
          failed := true;
        }
      }
      assert versions[..|versions|] == versions;
    }

    method ProcessCluster(
        p: Policy, cluster: string, dependents: seq<string>, hosting: map<string, set<string>>,
        versions: seq<string>, net: Network) returns (failed: bool)
      modifies this
      ensures
        var places := Targets(p, {cluster}, dependents, hosting, versions);
        && live == Written(old(live), p, places, net)
        && RecordsGrow(old(records), records, Key(p), places)
        && (failed <==>
              || (versions == [] && SomePair({cluster}, dependents, hosting))
              || SomeUnanswered(places, net))
    {
      failed := false;
      ghost var places: set<Place> := {};
      for i := 0 to |dependents|
        invariant places == Targets(p, {cluster}, dependents[..i], hosting, versions)
        invariant live == Written(old(live), p, places, net)
        invariant RecordsGrow(old(records), records, Key(p), places)
        invariant failed <==>
          || (versions == [] && SomePair({cluster}, dependents[..i], hosting))
          || SomeUnanswered(places, net)
      {
        var d := dependents[i];
        DependentAdded(p, cluster, dependents, i, hosting, versions);
        if Lives(hosting, d, cluster) {
          label before:
          var bad := CreateOrUpdateEnvoyFilters(p, cluster, d, versions, net);
          ghost var here := OneTarget(p, cluster, d, versions);
          WrittenTwice(old(live), p, places, here, net);
          RecordsGrowTwice(old(records), old@before(records), records, Key(p), places, here);
          failed := failed || bad;
          places := places + here;
        }
      }
      assert dependents[..|dependents|] == dependents;
    }

    /** `clusters` are the remote controllers' clusters that routing policies are enabled for. */
    method ProcessAddOrUpdate(
        p: Policy, clusters: set<string>, dependents: seq<string>, hosting: map<string, set<string>>,
        versions: seq<string>, net: Network) returns (failed: bool)
      modifies this
      ensures
        var places := Targets(p, clusters, dependents, hosting, versions);
        && WriteStep(old(Now()), p, places, net, Now())
        && (failed <==>
              || (versions == [] && SomePair(clusters, dependents, hosting))
              || SomeUnanswered(places, net))
    {
      failed := false;
      ghost var places: set<Place> := {};
      var left := clusters;
      while left != {}
        invariant left <= clusters
        invariant places == Targets(p, clusters - left, dependents, hosting, versions)
        invariant live == Written(old(live), p, places, net)
        invariant RecordsGrow(old(records), records, Key(p), places)
        invariant failed <==>
          || (versions == [] && SomePair(clusters - left, dependents, hosting))
          || SomeUnanswered(places, net)
      {
        var c :| c in left;
        label before:
        var bad := ProcessCluster(p, c, dependents, hosting, versions, net);
        ghost var here := Targets(p, {c}, dependents, hosting, versions);
        WrittenTwice(old(live), p, places, here, net);
        RecordsGrowTwice(old(records), old@before(records), records, Key(p), places, here);
        assert clusters - (left - {c}) == (clusters - left) + {c};
        TargetsSplit(p, clusters - left, {c}, dependents, hosting, versions);
        places := places + here;
        failed := failed || bad;
        left := left - {c};
      }
      assert clusters - left == clusters;
    }

    /** Deletes one cluster's recorded filters. */
    method DeleteInCluster(cluster: string, recorded: map<FilterName, string>, net: Network) returns (failed: bool)
      modifies `live
      ensures
        var places := set f | f in recorded :: Place(cluster, f);
        && live == Deleted(old(live), places, net)
        && (failed <==> !AllDeleted(old(live), places, net))
    {
      failed := false;
      ghost var done: set<Place> := {};
      var filters := recorded.Keys;
      while filters != {}
        invariant filters <= recorded.Keys
        invariant done == set f | f in recorded.Keys - filters :: Place(cluster, f)
        invariant live == Deleted(old(live), done, net)
        invariant failed <==> !AllDeleted(old(live), done, net)
      {
        var f :| f in filters;
        var x := Place(cluster, f);
        if x !in live || net(x) != Answered {
          failed := true;
        }
        if net(x) != Refused {
          live := live - {x};
        }
        done := done + {x};
        filters := filters - {f};
      }
    }

    /** `retain` is set when the cache may not be changed: in read-only mode, or with routing
        policies turned off. */
    method Delete(p: Policy, clusters: set<string>, retain: bool, net: Network) returns (failed: bool)
      modifies this
      ensures EraseStep(old(Now()), p, clusters, retain, net, failed, Now())
    {
      var recorded := if Key(p) in records then records[Key(p)] else map[];
      failed := false;
      ghost var done: set<Place> := {};
      var left := clusters;
      while left != {}
        invariant left <= clusters && records == old(records)
        invariant done == Doomed(old(Now()), p, clusters - left)
        invariant live == Deleted(old(live), done, net)
        invariant failed <==> !AllDeleted(old(live), done, net)
      {
        var c :| c in left;
        assert clusters - (left - {c}) == (clusters - left) + {c};
        DoomedSplit(old(Now()), p, clusters - left, c);
        if c in recorded {
          var bad := DeleteInCluster(c, recorded[c], net);
          ghost var here := set f | f in recorded[c] :: Place(c, f);
          DeletedTwice(old(live), done, here, net);
          failed := failed || bad;
          done := done + here;
        }
        left := left - {c};
      }
      assert clusters - left == clusters;
      if !failed && !retain {
        records := records - {Key(p)};
      }
    }
  }

  lemma DoomedSplit(s: System, p: Policy, clusters: set<string>, c: string)
    ensures
      var recorded := if Key(p) in s.records then s.records[Key(p)] else map[];
      Doomed(s, p, clusters + {c}) == Doomed(s, p, clusters) + if c in recorded then (set f | f in recorded[c] :: Place(c, f)) else {}
  {
  }

  lemma DeletedTwice(live: Filters, a: set<Place>, b: set<Place>, net: Network)
    requires a !! b
    ensures Deleted(Deleted(live, a, net), b, net) == Deleted(live, a + b, net)
    ensures AllDeleted(live, a + b, net) <==> AllDeleted(live, a, net) && AllDeleted(Deleted(live, a, net), b, net)
  {
    forall x | x in b
      ensures DeleteAnswered(live, x, net) <==> DeleteAnswered(Deleted(live, a, net), x, net)
    {
    }
  }

  /** What one more dependent adds in one cluster. */
  lemma DependentAdded(
      p: Policy, cluster: string, dependents: seq<string>, i: nat, hosting: map<string, set<string>>, versions: seq<string>)
    requires i < |dependents|
    ensures Targets(p, {cluster}, dependents[..i + 1], hosting, versions) ==
            Targets(p, {cluster}, dependents[..i], hosting, versions) +
            if Lives(hosting, dependents[i], cluster) then OneTarget(p, cluster, dependents[i], versions) else {}
    ensures SomePair({cluster}, dependents[..i + 1], hosting) <==>
            SomePair({cluster}, dependents[..i], hosting) || Lives(hosting, dependents[i], cluster)
  {
    assert dependents[..i + 1] == dependents[..i] + [dependents[i]];
    assert cluster in {cluster} && dependents[i] in dependents[..i + 1];
  }

  lemma WrittenTwice(live: Filters, p: Policy, a: set<Place>, b: set<Place>, net: Network)
    ensures Written(Written(live, p, a, net), p, b, net) == Written(live, p, a + b, net)
  {
  }

  lemma TargetsSplit(
      p: Policy, a: set<string>, b: set<string>, dependents: seq<string>, hosting: map<string, set<string>>, versions: seq<string>)
    ensures Targets(p, a + b, dependents, hosting, versions) ==
            Targets(p, a, dependents, hosting, versions) + Targets(p, b, dependents, hosting, versions)
    ensures SomePair(a + b, dependents, hosting) <==> SomePair(a, dependents, hosting) || SomePair(b, dependents, hosting)
  {
  }

  // ----- runs -----------------------------------------------------------------------------------------

  predicate NamedAfter(x: Place, p: Policy) {
    x.filter.digested == Digested(p) && x.filter.plugin == p.plugin
  }

  /** Every filter living in a cluster is recorded under its policy and named after it, and its
      cluster is one of the enabled ones. */
  ghost predicate Inv(s: System, clusters: set<string>) {
    forall x :: x in s.live ==>
      && Recorded(s.records, Key(s.live[x]), x) && NamedAfter(x, s.live[x]) && x.cluster in clusters
  }

  datatype Op =
    | Write(p: Policy, dependents: seq<string>, hosting: map<string, set<string>>, versions: seq<string>, net: Network)
    | Erase(p: Policy, retain: bool, net: Network, failed: bool)

  ghost predicate Step(s: System, op: Op, clusters: set<string>, t: System) {
    match op
    case Write(p, dependents, hosting, versions, net) =>
      WriteStep(s, p, Targets(p, clusters, dependents, hosting, versions), net, t)
    case Erase(p, retain, net, failed) =>
      EraseStep(s, p, clusters, retain, net, failed, t)
  }

  ghost predicate Run(ss: seq<System>, ops: seq<Op>, clusters: set<string>) {
    |ss| == |ops| + 1 && forall i :: 0 <= i < |ops| ==> Step(ss[i], ops[i], clusters, ss[i + 1])
  }

  lemma WriteKeepsInv(s: System, p: Policy, clusters: set<string>, places: set<Place>, net: Network, t: System)
    requires Inv(s, clusters) && WriteStep(s, p, places, net, t)
    requires forall x :: x in places ==> x.cluster in clusters && NamedAfter(x, p)
    ensures Inv(t, clusters)
  {
    forall x | x in t.live
      ensures Recorded(t.records, Key(t.live[x]), x)
    {
    }
  }

  lemma EraseKeepsInv(s: System, p: Policy, clusters: set<string>, retain: bool, net: Network, failed: bool, t: System)
    requires Inv(s, clusters) && EraseStep(s, p, clusters, retain, net, failed, t)
    ensures Inv(t, clusters)
  {
    RecordedIsPlaced(s.records, Key(p));
    forall x | x in t.live
      ensures Recorded(t.records, Key(t.live[x]), x)
    {
      assert x in s.live && t.live[x] == s.live[x];
    }
  }

  lemma StepKeepsInv(s: System, op: Op, clusters: set<string>, t: System)
    requires Inv(s, clusters) && Step(s, op, clusters, t)
    ensures Inv(t, clusters)
  {
    match op {
      case Write(p, dependents, hosting, versions, net) =>
        WriteKeepsInv(s, p, clusters, Targets(p, clusters, dependents, hosting, versions), net, t);
      case Erase(p, retain, net, failed) =>
        EraseKeepsInv(s, p, clusters, retain, net, failed, t);
    }
  }

  /** Over every run of writes and deletions with a fixed set of enabled clusters, whatever
      requests fail, every living filter is recorded under its policy. */
  lemma {:induction false} RunKeepsInv(ss: seq<System>, ops: seq<Op>, clusters: set<string>, n: nat)
    requires Run(ss, ops, clusters) && Inv(ss[0], clusters) && n <= |ops|
    ensures Inv(ss[n], clusters)
  {
    if n > 0 {
      RunKeepsInv(ss, ops, clusters, n - 1);
      StepKeepsInv(ss[n - 1], ops[n - 1], clusters, ss[n]);
    }
  }

  /** A deletion succeeds exactly when each recorded filter still lives and each request is
      answered; then none of the policy's filters is left. A failing one keeps the record. */
  lemma DeleteLeavesNone(s: System, p: Policy, clusters: set<string>, retain: bool, net: Network, failed: bool, t: System)
    requires Inv(s, clusters) && EraseStep(s, p, clusters, retain, net, failed, t)
    ensures failed ==> t.records == s.records
    ensures !failed ==> forall x :: x in t.live ==> Key(t.live[x]) != Key(p)
    ensures !failed <==> forall x :: Recorded(s.records, Key(p), x) && x.cluster in clusters ==> DeleteAnswered(s.live, x, net)
  {
    RecordedIsPlaced(s.records, Key(p));
  }

  /** A deletion can succeed at all exactly when no recorded filter is missing. */
  lemma DeletableExactly(s: System, p: Policy, clusters: set<string>)
    ensures (exists net: Network :: AllDeleted(s.live, Doomed(s, p, clusters), net)) <==> Doomed(s, p, clusters) <= s.live.Keys
  {
    if Doomed(s, p, clusters) <= s.live.Keys {
      var net: Network := x => Answered;
      assert AllDeleted(s.live, Doomed(s, p, clusters), net);
    }
  }

  // ----- deletions that cannot succeed any more ------------------------------------------------------------

  /** A recorded filter of `key` in an enabled cluster is gone. */
  ghost predicate Stuck(s: System, key: string, clusters: set<string>) {
    exists x :: Recorded(s.records, key, x) && x.cluster in clusters && x !in s.live
  }

  /** A failing deletion that did delete something leaves the policy stuck, and so does a
      successful one that may not change the record. */
  lemma PartialDeleteSticks(s: System, p: Policy, clusters: set<string>, retain: bool, net: Network, failed: bool, t: System, x: Place)
    requires EraseStep(s, p, clusters, retain, net, failed, t) && (failed || retain)
    requires x in Doomed(s, p, clusters) && net(x) != Refused
    ensures Stuck(t, Key(p), clusters)
  {
    RecordedIsPlaced(s.records, Key(p));
    assert Recorded(t.records, Key(p), x) && x !in t.live;
  }

  lemma {:induction false} StuckStays(ss: seq<System>, ops: seq<Op>, clusters: set<string>, key: string, n: nat)
    requires Run(ss, ops, clusters) && Stuck(ss[0], key, clusters) && n <= |ops|
    requires forall i :: 0 <= i < |ops| ==> ops[i].Erase?
    ensures Stuck(ss[n], key, clusters)
  {
    if n > 0 {
      var s, op := ss[n - 1], ops[n - 1];
      StuckStays(ss, ops, clusters, key, n - 1);
      assert op.Erase? && Step(s, op, clusters, ss[n - 1 + 1]);
      EraseKeepsStuck(s, op, clusters, key, ss[n]);
    }
  }

  /** From then on, over any run of deletions, each deletion of that policy fails. */
  lemma StuckForGood(ss: seq<System>, ops: seq<Op>, clusters: set<string>, key: string, n: nat)
    requires Run(ss, ops, clusters) && Stuck(ss[0], key, clusters) && n < |ops|
    requires forall i :: 0 <= i < |ops| ==> ops[i].Erase?
    ensures Stuck(ss[n], key, clusters)
    ensures Key(ops[n].p) == key ==> ops[n].failed
  {
    StuckStays(ss, ops, clusters, key, n);
    assert ops[n].Erase? && Step(ss[n], ops[n], clusters, ss[n + 1]);
    EraseKeepsStuck(ss[n], ops[n], clusters, key, ss[n + 1]);
  }

  lemma EraseKeepsStuck(s: System, op: Op, clusters: set<string>, key: string, t: System)
    requires Stuck(s, key, clusters) && op.Erase? && Step(s, op, clusters, t)
    ensures Stuck(t, key, clusters)
    ensures Key(op.p) == key ==> op.failed
  {
    var x :| Recorded(s.records, key, x) && x.cluster in clusters && x !in s.live;
    RecordedIsPlaced(s.records, key);
    if Key(op.p) == key {
      assert x in Doomed(s, op.p, clusters) && !DeleteAnswered(s.live, x, op.net);
    }
    assert Recorded(t.records, key, x);
  }
}
