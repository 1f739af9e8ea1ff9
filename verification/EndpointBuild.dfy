/** The loop over clusters that builds the shared service entries of one workload. */
module EndpointBuild {
  import opened Mesh
  import opened Prelude

  /** A deployment or rollout found in a cluster. `hosts` are the names its service entries
      are generated for, in order (preview and canary names come before the main one; none
      when no address could be allocated). */
  datatype Workload = Workload(hosts: seq<string>, hasService: bool, protocol: string)

  datatype Cluster = Cluster(
    id: string, ingress: string, port: nat, locality: string,
    deployment: Option<Workload>, rollout: Option<Workload>)

  /** What triggered the build: `resource` is the kind of the changed object, None when it
      is neither a deployment nor a rollout. */
  datatype Trigger = Trigger(event: EventType, cluster: string, resource: Option<AppType>)

  type Entries = map<string, seq<Endpoint>>

  predicate Migrating(c: Cluster) {
    c.deployment.Some? && c.rollout.Some?
  }

  /** What is done with one workload's endpoint, and whether its cluster loses the entry. */
  function RemoveSeEndpoints(
      t: Trigger, clusterId: string, migrating: bool, appType: AppType, deleteMap: map<string, Option<AppType>>)
    : (r: (EventType, bool))
    ensures r.1 <==> t.event.Delete? && t.cluster == clusterId
    ensures !t.event.Delete? ==> r.0 == t.event
    ensures t.event.Delete? && t.cluster != clusterId ==> r.0 == Update
  {
    if !t.event.Delete? then (t.event, false)
    else if t.cluster != clusterId then (Update, false)
    else
      var deleted := if t.cluster in deleteMap then deleteMap[t.cluster] else None;
      (if migrating && Some(appType) != deleted then Update else Delete, true)
  }

  predicate HasAddress(eps: seq<Endpoint>, address: string) {
    exists i :: 0 <= i < |eps| && eps[i].address == address
  }

  function Without(eps: seq<Endpoint>, ep: Endpoint): seq<Endpoint> {
    if eps == [] then []
    else (if eps[0] == ep then [] else [eps[0]]) + Without(eps[1..], ep)
  }

  /** One event applied to the endpoints of one entry. */
  function Apply(event: EventType, eps: seq<Endpoint>, ep: Endpoint): seq<Endpoint> {
    if event.Delete? then Without(eps, ep)
    else if HasAddress(eps, ep.address) then eps
    else eps + [ep]
  }

  lemma {:induction false} WithoutAppend(eps: seq<Endpoint>, x: Endpoint, ep: Endpoint)
    ensures Without(eps + [x], ep) == Without(eps, ep) + (if x == ep then [] else [x])
  {
    if eps == [] {
      assert eps + [x] == [x];
    } else {
      assert (eps + [x])[1..] == eps[1..] + [x];
      WithoutAppend(eps[1..], x, ep);
    }
  }

  function Of(entries: Entries, host: string): seq<Endpoint> {
    if host in entries then entries[host] else []
  }

  function ApplyAll(event: EventType, entries: Entries, hosts: seq<string>, ep: Endpoint): Entries {
    if hosts == [] then entries
    else
      var before := ApplyAll(event, entries, hosts[..|hosts| - 1], ep);
      var host := hosts[|hosts| - 1];
      before[host := Apply(event, Of(before, host), ep)]
  }

  function EndpointOf(c: Cluster, w: Workload, appType: AppType): Endpoint {
    Endpoint(c.ingress, map[w.protocol := c.port], c.locality, 0, Some(appType))
  }

  function Visit(t: Trigger, entries: Entries, deleteMap: map<string, Option<AppType>>, c: Cluster, appType: AppType, w: Workload): Entries {
    ApplyAll(RemoveSeEndpoints(t, c.id, Migrating(c), appType, deleteMap).0, entries, w.hosts, EndpointOf(c, w, appType))
  }

  function DeleteMapAfter(t: Trigger, c: Cluster, deleteMap: map<string, Option<AppType>>): map<string, Option<AppType>> {
    if Migrating(c) && t.event.Delete? then deleteMap[t.cluster := t.resource] else deleteMap
  }

  /** One iteration: the deployment first, then the rollout; a workload without a service
      ends the iteration. */
  function BuildOne(t: Trigger, entries: Entries, deleteMap: map<string, Option<AppType>>, c: Cluster): Entries {
    if c.deployment.Some? && !c.deployment.value.hasService then entries
    else
      var e1 := if c.deployment.Some? then Visit(t, entries, deleteMap, c, Deployment, c.deployment.value) else entries;
      if c.rollout.Some? && c.rollout.value.hasService then Visit(t, e1, deleteMap, c, Rollout, c.rollout.value) else e1
  }

  function BuildAll(t: Trigger, clusters: seq<Cluster>): (r: (Entries, map<string, Option<AppType>>)) {
    if clusters == [] then (map[], map[])
    else
      var n := |clusters| - 1;
      var before := BuildAll(t, clusters[..n]);
      var deleteMap := DeleteMapAfter(t, clusters[n], before.1);
      (BuildOne(t, before.0, deleteMap, clusters[n]), deleteMap)
  }

  /** The shared entries, filled in place. */
  class ServiceEntries {
    var entries: Entries

    constructor ()
      ensures entries == map[]
    {
      entries := map[];
    }

    method GenerateServiceEntry(event: EventType, host: string, ep: Endpoint)
      modifies this
      ensures entries == old(entries)[host := Apply(event, Of(old(entries), host), ep)]
    {
      var eps := if host in entries then entries[host] else [];
      var after := eps;
      if event.Add? || event.Update? {
        var found := false;
        for i := 0 to |eps|
          invariant entries == old(entries)
          invariant found <==> exists k :: 0 <= k < i && eps[k].address == ep.address
        {
          if eps[i].address == ep.address {
            found := true;
          }
        }
        assert found <==> HasAddress(eps, ep.address);
        if !found {
          after := eps + [ep];
        }
        assert after == Apply(event, eps, ep);
      } else {
        after := [];
        for i := 0 to |eps|
          invariant entries == old(entries)
          invariant after == Without(eps[..i], ep)
        {
          WithoutAppend(eps[..i], eps[i], ep);
          assert eps[..i + 1] == eps[..i] + [eps[i]];
          if eps[i] != ep {
            after := after + [eps[i]];
          }
        }
        assert eps[..|eps|] == eps;
      }
      entries := entries[host := after];
    }

    method CreateServiceEntries(event: EventType, hosts: seq<string>, ep: Endpoint)
      modifies this
      ensures entries == ApplyAll(event, old(entries), hosts, ep)
    {
      for i := 0 to |hosts|
        invariant entries == ApplyAll(event, old(entries), hosts[..i], ep)
      {
        GenerateServiceEntry(event, hosts[i], ep);
        assert hosts[..i + 1][..i] == hosts[..i];
      }
      assert hosts[..|hosts|] == hosts;
    }

    method Build(t: Trigger, clusters: seq<Cluster>)
      requires entries == map[]
      modifies this
      ensures entries == BuildAll(t, clusters).0
    {
      var deleteMap: map<string, Option<AppType>> := map[];
      for i := 0 to |clusters|
        invariant (entries, deleteMap) == BuildAll(t, clusters[..i])
      {
        var c := clusters[i];
        assert clusters[..i + 1][..i] == clusters[..i];
        if c.deployment.Some? && c.rollout.Some? && t.event.Delete? {
          deleteMap := deleteMap[t.cluster := t.resource];
        }
        var skip := false;
        if c.deployment.Some? {
          if c.deployment.value.hasService {
            var w := c.deployment.value;
            var event := RemoveSeEndpoints(t, c.id, Migrating(c), Deployment, deleteMap).0;
            CreateServiceEntries(event, w.hosts, EndpointOf(c, w, Deployment));
          } else {
            skip := true;
          }
        }
        if !skip && c.rollout.Some? && c.rollout.value.hasService {
          var w := c.rollout.value;
          var event := RemoveSeEndpoints(t, c.id, Migrating(c), Rollout, deleteMap).0;
          CreateServiceEntries(event, w.hosts, EndpointOf(c, w, Rollout));
        }
      }
      assert clusters[..|clusters|] == clusters;
    }
  }

  // ----- what the loop builds ------------------------------------------------------------------

  /** The deployment (or rollout) of `c` offers `host`. */
  predicate Offers(c: Cluster, appType: AppType, host: string) {
    match appType
    case Deployment => c.deployment.Some? && c.deployment.value.hasService && host in c.deployment.value.hosts
    case Rollout =>
      && (c.deployment.None? || c.deployment.value.hasService)
      && c.rollout.Some? && c.rollout.value.hasService && host in c.rollout.value.hosts
  }

  /** The event removes this workload of `c`. */
  predicate Removed(t: Trigger, c: Cluster, appType: AppType) {
    t.event.Delete? && c.id == t.cluster && (Migrating(c) ==> t.resource == Some(appType))
  }

  predicate Keeps(t: Trigger, c: Cluster, host: string) {
    (Offers(c, Deployment, host) && !Removed(t, c, Deployment)) ||
    (Offers(c, Rollout, host) && !Removed(t, c, Rollout))
  }

  function KeptEndpoint(t: Trigger, c: Cluster, host: string): Endpoint
    requires Keeps(t, c, host)
  {
    if Offers(c, Deployment, host) && !Removed(t, c, Deployment)
    then EndpointOf(c, c.deployment.value, Deployment)
    else EndpointOf(c, c.rollout.value, Rollout)
  }

  /** One endpoint for each cluster that keeps the host, in the order of the visits. */
  function KeptEndpoints(t: Trigger, clusters: seq<Cluster>, host: string): seq<Endpoint> {
    if clusters == [] then []
    else
      var n := |clusters| - 1;
      KeptEndpoints(t, clusters[..n], host) +
      if Keeps(t, clusters[n], host) then [KeptEndpoint(t, clusters[n], host)] else []
  }

  ghost predicate DistinctIngresses(clusters: seq<Cluster>) {
    forall i, j :: 0 <= i < j < |clusters| ==> clusters[i].ingress != clusters[j].ingress
  }

  lemma {:induction false} WithoutAbsent(eps: seq<Endpoint>, ep: Endpoint)
    requires ep !in eps
    ensures Without(eps, ep) == eps
  {
    if eps != [] {
      assert forall x :: x in eps[1..] ==> x in eps;
      assert eps[0] in eps;
      WithoutAbsent(eps[1..], ep);
    }
  }

  lemma {:induction false} WithoutGone(eps: seq<Endpoint>, ep: Endpoint)
    ensures ep !in Without(eps, ep)
  {
    if eps != [] {
      WithoutGone(eps[1..], ep);
    }
  }

  /** A repeated event changes nothing. */
  lemma AppliedTwice(event: EventType, eps: seq<Endpoint>, ep: Endpoint)
    ensures Apply(event, Apply(event, eps, ep), ep) == Apply(event, eps, ep)
  {
    if event.Delete? {
      WithoutGone(eps, ep);
      WithoutAbsent(Without(eps, ep), ep);
    } else if !HasAddress(eps, ep.address) {
      assert (eps + [ep])[|eps|] == ep;
    }
  }

  /** Applying one workload to its hosts touches exactly those hosts, each once in effect. */
  lemma {:induction false} ApplyAllAt(event: EventType, entries: Entries, hosts: seq<string>, ep: Endpoint, host: string)
    ensures Of(ApplyAll(event, entries, hosts, ep), host) ==
      if host in hosts then Apply(event, Of(entries, host), ep) else Of(entries, host)
  {
    AppliedTwice(event, Of(entries, host), ep);
    if hosts != [] {
      var n := |hosts| - 1;
      assert hosts == hosts[..n] + [hosts[n]];
      ApplyAllAt(event, entries, hosts[..n], ep, host);
    }
  }

  /** A visit to a cluster whose ingress is new to the list. */
  lemma BuildOneAt(t: Trigger, entries: Entries, deleteMap: map<string, Option<AppType>>, c: Cluster, host: string)
    requires !HasAddress(Of(entries, host), c.ingress)
    requires Migrating(c) && t.event.Delete? ==> t.cluster in deleteMap && deleteMap[t.cluster] == t.resource
    ensures Of(BuildOne(t, entries, deleteMap, c), host) ==
      Of(entries, host) + if Keeps(t, c, host) then [KeptEndpoint(t, c, host)] else []
  {
    if c.deployment.Some? && !c.deployment.value.hasService {
      return;
    }
    var eps := Of(entries, host);
    var e1 := entries;
    if c.deployment.Some? {
      var ep := EndpointOf(c, c.deployment.value, Deployment);
      var event := RemoveSeEndpoints(t, c.id, Migrating(c), Deployment, deleteMap).0;
      WithoutAbsent(eps, ep);
      ApplyAllAt(event, entries, c.deployment.value.hosts, ep, host);
      e1 := Visit(t, entries, deleteMap, c, Deployment, c.deployment.value);
      assert Of(e1, host) == eps || Of(e1, host) == eps + [ep];
    }
    if c.rollout.Some? && c.rollout.value.hasService {
      RolloutAfterDeployment(t, eps, e1, deleteMap, c, host);
    }
  }

  /** The rollout's turn, after the deployment's endpoint may have been added. */
  lemma RolloutAfterDeployment(
      t: Trigger, eps: seq<Endpoint>, e1: Entries, deleteMap: map<string, Option<AppType>>, c: Cluster, host: string)
    requires !HasAddress(eps, c.ingress) && c.rollout.Some?
    requires
      || Of(e1, host) == eps
      || (c.deployment.Some? && Of(e1, host) == eps + [EndpointOf(c, c.deployment.value, Deployment)])
    ensures
      var event := RemoveSeEndpoints(t, c.id, Migrating(c), Rollout, deleteMap).0;
      Of(Visit(t, e1, deleteMap, c, Rollout, c.rollout.value), host) ==
      if Of(e1, host) == eps && host in c.rollout.value.hosts && !event.Delete?
      then eps + [EndpointOf(c, c.rollout.value, Rollout)] else Of(e1, host)
  {
    var ep := EndpointOf(c, c.rollout.value, Rollout);
    var event := RemoveSeEndpoints(t, c.id, Migrating(c), Rollout, deleteMap).0;
    if Of(e1, host) == eps {
      WithoutAbsent(eps, ep);
    } else {
      var dep := EndpointOf(c, c.deployment.value, Deployment);
      assert Of(e1, host)[|eps|] == dep;
      WithoutAbsent(Of(e1, host), ep);
    }
    ApplyAllAt(event, e1, c.rollout.value.hosts, ep, host);
  }

  lemma {:induction false} KeptAddresses(t: Trigger, clusters: seq<Cluster>, host: string, address: string)
    ensures HasAddress(KeptEndpoints(t, clusters, host), address) <==>
      exists i :: 0 <= i < |clusters| && clusters[i].ingress == address && Keeps(t, clusters[i], host)
  {
    if clusters != [] {
      var n := |clusters| - 1;
      KeptAddresses(t, clusters[..n], host, address);
      var before := KeptEndpoints(t, clusters[..n], host);
      var all := KeptEndpoints(t, clusters, host);
      assert forall k :: 0 <= k < |before| ==> all[k] == before[k];
      assert forall i :: 0 <= i < n ==> clusters[..n][i] == clusters[i];
      if Keeps(t, clusters[n], host) {
        assert all[|before|].address == clusters[n].ingress;
      }
    }
  }

  /** Main result: with pairwise distinct ingress addresses the loop builds, for every host,
      exactly one endpoint for each cluster that keeps it. */
  lemma {:induction false} BuildIsExact(t: Trigger, clusters: seq<Cluster>, host: string)
    requires DistinctIngresses(clusters)
    ensures Of(BuildAll(t, clusters).0, host) == KeptEndpoints(t, clusters, host)
  {
    if clusters != [] {
      var n := |clusters| - 1;
      BuildIsExact(t, clusters[..n], host);
      KeptAddresses(t, clusters[..n], host, clusters[n].ingress);
      var before := BuildAll(t, clusters[..n]);
      BuildOneAt(t, before.0, DeleteMapAfter(t, clusters[n], before.1), clusters[n], host);
    }
  }

  lemma BuildTwo(t: Trigger, first: Cluster, second: Cluster)
    requires !Migrating(first) && !Migrating(second)
    ensures BuildAll(t, [first, second]).0 == BuildOne(t, BuildOne(t, map[], map[], first), map[], second)
  {
    var one, two := [first], [first, second];
    assert one[..0] == [] && two[..1] == one;
    assert BuildAll(t, one) == (BuildOne(t, map[], map[], first), map[]);
    assert BuildAll(t, two) == (BuildOne(t, BuildAll(t, one).0, map[], second), map[]);
  }

  lemma BuildSimple(t: Trigger, entries: Entries, c: Cluster, host: string, w: Workload)
    requires w == Workload([host], true, "http") && c.deployment == Some(w) && c.rollout == None
    ensures
      var event := if t.event.Delete? && t.cluster != c.id then Update else t.event;
      BuildOne(t, entries, map[], c) == entries[host := Apply(event, Of(entries, host), EndpointOf(c, w, Deployment))]
  {
    var event := RemoveSeEndpoints(t, c.id, false, Deployment, map[]).0;
    var ep := EndpointOf(c, w, Deployment);
    assert w.hosts[..0] == [] && w.hosts[0] == host;
    assert ApplyAll(event, entries, w.hosts, ep) == entries[host := Apply(event, Of(entries, host), ep)];
  }

  /** Agreement is needed: two clusters behind one ingress (both without a load balancer share
      the dummy name), of which one keeps the endpoint that the other removes, make the result
      of a delete depend on the order. */
  lemma SharedIngressOrderMatters(host: string, ingress: string)
    ensures
      var w := Workload([host], true, "http");
      var a, b := Cluster("a", ingress, 15443, "r", Some(w), None), Cluster("b", ingress, 15443, "r", Some(w), None);
      var t := Trigger(Delete, "b", Some(Deployment));
      && Of(BuildAll(t, [a, b]).0, host) == []
      && Of(BuildAll(t, [b, a]).0, host) == [EndpointOf(a, w, Deployment)]
  {
    var w := Workload([host], true, "http");
    var a, b := Cluster("a", ingress, 15443, "r", Some(w), None), Cluster("b", ingress, 15443, "r", Some(w), None);
    var t := Trigger(Delete, "b", Some(Deployment));
    var ep := EndpointOf(a, w, Deployment);
    var none: seq<Endpoint> := [];
    WithoutAppend(none, ep, ep);
    assert none + [ep] == [ep];
    BuildTwo(t, a, b);
    BuildTwo(t, b, a);
    BuildSimple(t, map[], a, host, w);
    BuildSimple(t, map[], b, host, w);
    BuildSimple(t, BuildOne(t, map[], map[], a), b, host, w);
    BuildSimple(t, BuildOne(t, map[], map[], b), a, host, w);
  }
}
