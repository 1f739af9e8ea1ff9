/** The built entries when clusters may share an ingress: what each address ends up with, and
    when that depends on the order in which the clusters are visited. */
module EndpointOrder {
  import opened Mesh
  import opened Prelude
  import opened EndpointBuild

  // ----- one address at a time --------------------------------------------------------------------

  ghost predicate DistinctAddresses(eps: seq<Endpoint>) {
    forall i, j :: 0 <= i < j < |eps| ==> eps[i].address != eps[j].address
  }

  function Find(eps: seq<Endpoint>, address: string): Option<Endpoint> {
    if eps == [] then None
    else
      var n := |eps| - 1;
      if eps[n].address == address then Some(eps[n]) else Find(eps[..n], address)
  }

  lemma {:induction false} FindIs(eps: seq<Endpoint>, address: string)
    requires DistinctAddresses(eps)
    ensures forall e :: Find(eps, address) == Some(e) <==> e in eps && e.address == address
    ensures Find(eps, address).Some? <==> HasAddress(eps, address)
  {
    if eps != [] {
      var n := |eps| - 1;
      FindIs(eps[..n], address);
      assert eps == eps[..n] + [eps[n]];
      assert HasAddress(eps[..n], address) ==> HasAddress(eps, address) by {
        assert forall i :: 0 <= i < n ==> eps[..n][i] == eps[i];
      }
    }
  }

  /** An event with an endpoint, on what stands at its address. */
  function Op(removes: bool, s: Option<Endpoint>, ep: Endpoint): Option<Endpoint> {
    if removes then if s == Some(ep) then None else s
    else if s.None? then Some(ep) else s
  }

  lemma {:induction false} WithoutMembers(eps: seq<Endpoint>, ep: Endpoint)
    ensures forall e :: e in Without(eps, ep) <==> e in eps && e != ep
    ensures DistinctAddresses(eps) ==> DistinctAddresses(Without(eps, ep))
  {
    if eps != [] {
      WithoutMembers(eps[1..], ep);
      assert eps == [eps[0]] + eps[1..];
      if DistinctAddresses(eps) {
        var rest := Without(eps[1..], ep);
        forall k | 0 <= k < |rest|
          ensures rest[k].address != eps[0].address
        {
          assert rest[k] in eps[1..];
        }
      }
    }
  }

  lemma ApplyAt(event: EventType, eps: seq<Endpoint>, ep: Endpoint, address: string)
    requires DistinctAddresses(eps)
    ensures DistinctAddresses(Apply(event, eps, ep))
    ensures Find(Apply(event, eps, ep), address) ==
      if ep.address == address then Op(event.Delete?, Find(eps, address), ep) else Find(eps, address)
  {
    FindIs(eps, address);
    if event.Delete? {
      WithoutMembers(eps, ep);
      FindIs(Without(eps, ep), address);
      if Find(eps, address).Some? {
        assert Find(eps, address) == Some(Find(eps, address).value);
      }
      if Find(Without(eps, ep), address).Some? {
        assert Find(Without(eps, ep), address) == Some(Find(Without(eps, ep), address).value);
      }
    } else if !HasAddress(eps, ep.address) {
      assert forall i :: 0 <= i < |eps| ==> eps[i].address != ep.address;
      assert (eps + [ep])[..|eps|] == eps;
    }
  }

  /** One workload's turn. */
  function WorkloadTurn(t: Trigger, c: Cluster, appType: AppType, host: string, s: Option<Endpoint>): Option<Endpoint> {
    if !Offers(c, appType, host) then s
    else
      var w := if appType.Deployment? then c.deployment.value else c.rollout.value;
      Op(Removed(t, c, appType), s, EndpointOf(c, w, appType))
  }

  /** A cluster's turn, on what stands at its ingress. */
  function Turn(t: Trigger, c: Cluster, host: string, s: Option<Endpoint>): Option<Endpoint> {
    WorkloadTurn(t, c, Rollout, host, WorkloadTurn(t, c, Deployment, host, s))
  }

  /** What stands at an address after the clusters have had their turns. */
  function StateAt(t: Trigger, clusters: seq<Cluster>, host: string, address: string): Option<Endpoint> {
    if clusters == [] then None
    else
      var n := |clusters| - 1;
      var s := StateAt(t, clusters[..n], host, address);
      if clusters[n].ingress == address then Turn(t, clusters[n], host, s) else s
  }

  ghost predicate KnowsDelete(t: Trigger, deleteMap: map<string, Option<AppType>>, c: Cluster) {
    Migrating(c) && t.event.Delete? ==> t.cluster in deleteMap && deleteMap[t.cluster] == t.resource
  }

  lemma VisitAt(
      t: Trigger, entries: Entries, deleteMap: map<string, Option<AppType>>, c: Cluster, appType: AppType, w: Workload,
      host: string, address: string)
    requires DistinctAddresses(Of(entries, host)) && KnowsDelete(t, deleteMap, c)
    requires Some(w) == if appType.Deployment? then c.deployment else c.rollout
    requires Offers(c, appType, host) <==> host in w.hosts
    ensures
      var eps := Of(Visit(t, entries, deleteMap, c, appType, w), host);
      && DistinctAddresses(eps)
      && Find(eps, address) ==
         if c.ingress == address then WorkloadTurn(t, c, appType, host, Find(Of(entries, host), address))
         else Find(Of(entries, host), address)
  {
    var event := RemoveSeEndpoints(t, c.id, Migrating(c), appType, deleteMap).0;
    var ep := EndpointOf(c, w, appType);
    assert event.Delete? <==> Removed(t, c, appType);
    ApplyAllAt(event, entries, w.hosts, ep, host);
    ApplyAt(event, Of(entries, host), ep, address);
  }

  lemma BuildOneStep(
      t: Trigger, entries: Entries, deleteMap: map<string, Option<AppType>>, c: Cluster, host: string, address: string)
    requires DistinctAddresses(Of(entries, host)) && KnowsDelete(t, deleteMap, c)
    ensures
      var eps := Of(BuildOne(t, entries, deleteMap, c), host);
      && DistinctAddresses(eps)
      && Find(eps, address) ==
         if c.ingress == address then Turn(t, c, host, Find(Of(entries, host), address)) else Find(Of(entries, host), address)
  {
    if c.deployment.Some? && !c.deployment.value.hasService {
      return;
    }
    var e1 := entries;
    if c.deployment.Some? {
      VisitAt(t, entries, deleteMap, c, Deployment, c.deployment.value, host, address);
      e1 := Visit(t, entries, deleteMap, c, Deployment, c.deployment.value);
    }
    if c.rollout.Some? && c.rollout.value.hasService {
      VisitAt(t, e1, deleteMap, c, Rollout, c.rollout.value, host, address);
    }
  }

  /** For any clusters, the built entry has at each address what the turns of the clusters
      behind it leave there, at most one endpoint. */
  lemma {:induction false} BuiltAt(t: Trigger, clusters: seq<Cluster>, host: string, address: string)
    ensures
      var eps := Of(BuildAll(t, clusters).0, host);
      DistinctAddresses(eps) && Find(eps, address) == StateAt(t, clusters, host, address)
  {
    if clusters != [] {
      var n := |clusters| - 1;
      BuiltAt(t, clusters[..n], host, address);
      var before := BuildAll(t, clusters[..n]);
      BuildOneStep(t, before.0, DeleteMapAfter(t, clusters[n], before.1), clusters[n], host, address);
    }
  }

  /** `ep` is the endpoint of a workload of `c` that has a service and offers `host`. A
      deployment without a service hides its cluster's rollout. */
  predicate IsEndpointOf(c: Cluster, host: string, ep: Endpoint) {
    && ep.address == c.ingress && ep.locality == c.locality && ep.weight == 0
    && (c.deployment.Some? ==> c.deployment.value.hasService)
    && ((&& c.deployment.Some? && host in c.deployment.value.hosts
         && ep.ports == map[c.deployment.value.protocol := c.port] && ep.appType == Some(Deployment))
        || (&& c.rollout.Some? && c.rollout.value.hasService && host in c.rollout.value.hosts
            && ep.ports == map[c.rollout.value.protocol := c.port] && ep.appType == Some(Rollout)))
  }

  lemma {:induction false} StateFields(t: Trigger, clusters: seq<Cluster>, host: string, address: string, ep: Endpoint)
    returns (i: nat)
    requires StateAt(t, clusters, host, address) == Some(ep)
    ensures i < |clusters| && IsEndpointOf(clusters[i], host, ep)
  {
    var n := |clusters| - 1;
    if StateAt(t, clusters[..n], host, address) == Some(ep) {
      i := StateFields(t, clusters[..n], host, address, ep);
    } else {
      i := n;
    }
  }

  /** What a built endpoint says, for any clusters and event: ingress, locality, port and label
      are those of one workload of one cluster. */
  lemma BuiltFields(t: Trigger, clusters: seq<Cluster>, host: string, ep: Endpoint) returns (i: nat)
    requires ep in Of(BuildAll(t, clusters).0, host)
    ensures i < |clusters| && IsEndpointOf(clusters[i], host, ep)
  {
    BuiltMembers(t, clusters, host);
    i := StateFields(t, clusters, host, ep.address, ep);
  }

  lemma BuiltMembers(t: Trigger, clusters: seq<Cluster>, host: string)
    ensures
      var eps := Of(BuildAll(t, clusters).0, host);
      && DistinctAddresses(eps)
      && (forall ep :: ep in eps <==> StateAt(t, clusters, host, ep.address) == Some(ep))
      && (forall a :: HasAddress(eps, a) <==> StateAt(t, clusters, host, a).Some?)
  {
    var eps := Of(BuildAll(t, clusters).0, host);
    BuiltAt(t, clusters, host, "");
    forall ep: Endpoint
      ensures ep in eps <==> StateAt(t, clusters, host, ep.address) == Some(ep)
    {
      BuiltAt(t, clusters, host, ep.address);
      FindIs(eps, ep.address);
    }
    forall a
      ensures HasAddress(eps, a) <==> StateAt(t, clusters, host, a).Some?
    {
      BuiltAt(t, clusters, host, a);
      FindIs(eps, a);
    }
  }

  lemma {:induction false} CountOfDistinct(eps: seq<Endpoint>, ep: Endpoint)
    requires DistinctAddresses(eps)
    ensures multiset(eps)[ep] == if ep in eps then 1 else 0
  {
    if eps != [] {
      var n := |eps| - 1;
      CountOfDistinct(eps[..n], ep);
      assert eps == eps[..n] + [eps[n]];
    }
  }

  /** Two visiting orders build the same endpoints when they leave the same at each address. */
  lemma SameBuilt(t: Trigger, a: seq<Cluster>, b: seq<Cluster>, host: string)
    requires forall x :: StateAt(t, a, host, x) == StateAt(t, b, host, x)
    ensures multiset(Of(BuildAll(t, a).0, host)) == multiset(Of(BuildAll(t, b).0, host))
  {
    BuiltMembers(t, a, host);
    BuiltMembers(t, b, host);
    var x, y := Of(BuildAll(t, a).0, host), Of(BuildAll(t, b).0, host);
    forall ep
      ensures multiset(x)[ep] == multiset(y)[ep]
    {
      CountOfDistinct(x, ep);
      CountOfDistinct(y, ep);
    }
  }

  lemma DifferentBuilt(t: Trigger, a: seq<Cluster>, b: seq<Cluster>, host: string, address: string, ep: Endpoint)
    requires StateAt(t, a, host, address) == Some(ep) && ep.address == address && StateAt(t, b, host, address) != Some(ep)
    ensures multiset(Of(BuildAll(t, a).0, host)) != multiset(Of(BuildAll(t, b).0, host))
  {
    BuiltMembers(t, a, host);
    BuiltMembers(t, b, host);
    assert ep in multiset(Of(BuildAll(t, a).0, host));
  }

  // ----- agreement --------------------------------------------------------------------------------

  /** The event removes exactly this endpoint of `c`. */
  predicate Takes(t: Trigger, c: Cluster, host: string, ep: Endpoint) {
    || (Offers(c, Deployment, host) && Removed(t, c, Deployment) && ep == EndpointOf(c, c.deployment.value, Deployment))
    || (Offers(c, Rollout, host) && Removed(t, c, Rollout) && ep == EndpointOf(c, c.rollout.value, Rollout))
  }

  /** The event deletes the deployment of `m`, and its rollout takes over. */
  predicate Replaces(t: Trigger, m: Cluster, host: string) {
    Offers(m, Deployment, host) && Offers(m, Rollout, host) && t == Trigger(Delete, m.id, Some(Deployment))
  }

  predicate EitherOf(m: Cluster, ep: Endpoint)
    requires m.deployment.Some? && m.rollout.Some?
  {
    ep == EndpointOf(m, m.deployment.value, Deployment) || ep == EndpointOf(m, m.rollout.value, Rollout)
  }

  ghost predicate DistinctIds(clusters: seq<Cluster>) {
    forall i, j :: 0 <= i < j < |clusters| ==> clusters[i].id != clusters[j].id
  }

  /** A cluster behind the same ingress replaces the endpoint, or by it. */
  ghost predicate Absorbed(t: Trigger, clusters: seq<Cluster>, host: string, address: string, ep: Endpoint) {
    exists m :: m in clusters && m.ingress == address && Replaces(t, m, host) && EitherOf(m, ep)
  }

  /** `d` keeps the same endpoint, if any, and does not remove it. */
  predicate GoesAlong(t: Trigger, d: Cluster, host: string, ep: Endpoint) {
    (Keeps(t, d, host) ==> KeptEndpoint(t, d, host) == ep) && !Takes(t, d, host, ep)
  }

  /** Clusters behind one ingress keep the same endpoint and none removes it; or a cluster there
      replaces its deployment's endpoint by its rollout's, and the others keep one of the two. */
  ghost predicate Agree(t: Trigger, clusters: seq<Cluster>, host: string) {
    forall c, d :: c in clusters && d in clusters && c.ingress == d.ingress && Keeps(t, c, host) ==>
      || Absorbed(t, clusters, host, c.ingress, KeptEndpoint(t, c, host))
      || GoesAlong(t, d, host, KeptEndpoint(t, c, host))
  }

  // ----- turns ------------------------------------------------------------------------------------

  lemma TurnOnNothing(t: Trigger, c: Cluster, host: string)
    ensures Turn(t, c, host, None) == if Keeps(t, c, host) then Some(KeptEndpoint(t, c, host)) else None
  {
  }

  lemma TurnLeaves(t: Trigger, c: Cluster, host: string, ep: Endpoint)
    requires !Takes(t, c, host, ep)
    ensures Turn(t, c, host, Some(ep)) == Some(ep)
  {
  }

  lemma TurnTakes(t: Trigger, c: Cluster, host: string, s: Option<Endpoint>, ep: Endpoint)
    requires Takes(t, c, host, ep)
    ensures Turn(t, c, host, s) != Some(ep)
    ensures s == Some(ep) && !Replaces(t, c, host) ==> Turn(t, c, host, s) == None
  {
  }

  lemma TurnReplaces(t: Trigger, m: Cluster, host: string, s: Option<Endpoint>)
    requires Replaces(t, m, host) && (s.Some? ==> EitherOf(m, s.value))
    ensures Turn(t, m, host, s) == Some(EndpointOf(m, m.rollout.value, Rollout))
    ensures Keeps(t, m, host) && KeptEndpoint(t, m, host) == EndpointOf(m, m.rollout.value, Rollout)
  {
  }

  lemma OwnNotTaken(t: Trigger, c: Cluster, host: string)
    requires Keeps(t, c, host)
    ensures !Takes(t, c, host, KeptEndpoint(t, c, host))
  {
  }

  lemma TakesOnlyAtEvent(t: Trigger, c: Cluster, host: string, ep: Endpoint)
    requires Takes(t, c, host, ep)
    ensures t.event.Delete? && c.id == t.cluster && ep.address == c.ingress
  {
  }

  // ----- when clusters agree the order does not matter --------------------------------------------

  predicate KeeperAt(t: Trigger, clusters: seq<Cluster>, host: string, address: string) {
    exists i :: 0 <= i < |clusters| && clusters[i].ingress == address && Keeps(t, clusters[i], host)
  }

  lemma KeeperAtGrows(t: Trigger, clusters: seq<Cluster>, host: string, address: string)
    requires clusters != []
    ensures
      var n := |clusters| - 1;
      KeeperAt(t, clusters, host, address) <==>
      KeeperAt(t, clusters[..n], host, address) || (clusters[n].ingress == address && Keeps(t, clusters[n], host))
  {
    var n := |clusters| - 1;
    assert forall i :: 0 <= i < n ==> clusters[..n][i] == clusters[i];
  }

  /** Nothing is kept, so nothing is built. */
  lemma {:induction false} SettlesEmpty(t: Trigger, clusters: seq<Cluster>, host: string, address: string)
    requires !KeeperAt(t, clusters, host, address)
    ensures StateAt(t, clusters, host, address) == None
  {
    if clusters != [] {
      KeeperAtGrows(t, clusters, host, address);
      SettlesEmpty(t, clusters[..|clusters| - 1], host, address);
      TurnOnNothing(t, clusters[|clusters| - 1], host);
    }
  }

  /** Everybody there goes along with one endpoint. */
  lemma {:induction false} SettlesAgreed(t: Trigger, clusters: seq<Cluster>, host: string, address: string, ep: Endpoint)
    requires forall c :: c in clusters && c.ingress == address ==> GoesAlong(t, c, host, ep)
    ensures StateAt(t, clusters, host, address) == if KeeperAt(t, clusters, host, address) then Some(ep) else None
  {
    if clusters != [] {
      var n := |clusters| - 1;
      assert clusters == clusters[..n] + [clusters[n]];
      KeeperAtGrows(t, clusters, host, address);
      SettlesAgreed(t, clusters[..n], host, address, ep);
      TurnOnNothing(t, clusters[n], host);
      if clusters[n].ingress == address {
        TurnLeaves(t, clusters[n], host, ep);
      }
    }
  }

  /** `c` keeps one of the two endpoints of `m`, if any, and removes nothing. */
  predicate Follows(t: Trigger, c: Cluster, host: string, m: Cluster)
    requires m.deployment.Some? && m.rollout.Some?
  {
    && c.id != t.cluster
    && (Keeps(t, c, host) ==> EitherOf(m, KeptEndpoint(t, c, host)))
  }

  /** The replacing cluster has the last word. */
  lemma {:induction false} SettlesReplaced(t: Trigger, clusters: seq<Cluster>, host: string, m: Cluster)
    requires Replaces(t, m, host)
    requires forall c :: c in clusters && c.ingress == m.ingress ==> c == m || Follows(t, c, host, m)
    ensures
      var s := StateAt(t, clusters, host, m.ingress);
      && (s.Some? ==> EitherOf(m, s.value))
      && (m in clusters ==> s == Some(EndpointOf(m, m.rollout.value, Rollout)))
  {
    if clusters != [] {
      var n := |clusters| - 1;
      assert clusters == clusters[..n] + [clusters[n]];
      SettlesReplaced(t, clusters[..n], host, m);
      var s := StateAt(t, clusters[..n], host, m.ingress);
      if clusters[n] == m {
        TurnReplaces(t, m, host, s);
      } else if clusters[n].ingress == m.ingress {
        FollowerTurn(t, clusters[n], host, s);
      }
    }
  }

  lemma FollowerTurn(t: Trigger, c: Cluster, host: string, s: Option<Endpoint>)
    requires c.id != t.cluster
    ensures Turn(t, c, host, s) ==
      if s.None? && Keeps(t, c, host) then Some(KeptEndpoint(t, c, host)) else s
  {
    TurnOnNothing(t, c, host);
    if s.Some? {
      TurnLeaves(t, c, host, s.value);
    }
  }

  /** An id names one cluster of the list. */
  ghost predicate IdsIdentify(clusters: seq<Cluster>) {
    forall c, d :: c in clusters && d in clusters && c.id == d.id ==> c == d
  }

  lemma DistinctIdsIdentify(clusters: seq<Cluster>)
    requires DistinctIds(clusters)
    ensures IdsIdentify(clusters)
  {
    forall c, d | c in clusters && d in clusters && c.id == d.id
      ensures c == d
    {
      var i :| 0 <= i < |clusters| && clusters[i] == c;
      var j :| 0 <= j < |clusters| && clusters[j] == d;
    }
  }

  ghost predicate ReplacerAt(t: Trigger, clusters: seq<Cluster>, host: string, address: string, m: Cluster) {
    m in clusters && m.ingress == address && Replaces(t, m, host)
  }

  /** Clusters that agree with a replacing one all follow it. */
  lemma AgreeingFollow(t: Trigger, clusters: seq<Cluster>, host: string, m: Cluster, c: Cluster)
    requires IdsIdentify(clusters) && Agree(t, clusters, host) && ReplacerAt(t, clusters, host, m.ingress, m)
    requires c in clusters && c.ingress == m.ingress
    ensures c == m || Follows(t, c, host, m)
  {
    if c.id == t.cluster {
      assert c == m;
    } else if Keeps(t, c, host) {
      var ep := KeptEndpoint(t, c, host);
      TurnReplaces(t, m, host, None);
      assert Absorbed(t, clusters, host, c.ingress, ep) || GoesAlong(t, m, host, ep);
      if Absorbed(t, clusters, host, c.ingress, ep) {
        var m' :| m' in clusters && m'.ingress == c.ingress && Replaces(t, m', host) && EitherOf(m', ep);
        assert m == m';
      }
    }
  }

  /** What agreeing clusters leave at an address: the replacing cluster's rollout endpoint, or
      else the endpoint that any of them keeps, or nothing. */
  lemma Settled(t: Trigger, clusters: seq<Cluster>, host: string, address: string)
    requires IdsIdentify(clusters) && Agree(t, clusters, host)
    ensures
      var s := StateAt(t, clusters, host, address);
      && (s.Some? <==> KeeperAt(t, clusters, host, address))
      && (forall m :: ReplacerAt(t, clusters, host, address, m) ==> s == Some(EndpointOf(m, m.rollout.value, Rollout)))
      && ((forall m :: !ReplacerAt(t, clusters, host, address, m)) ==>
            forall c :: c in clusters && c.ingress == address && Keeps(t, c, host) ==> s == Some(KeptEndpoint(t, c, host)))
  {
    if m :| ReplacerAt(t, clusters, host, address, m) {
      forall c | c in clusters && c.ingress == m.ingress
        ensures c == m || Follows(t, c, host, m)
      {
        AgreeingFollow(t, clusters, host, m, c);
      }
      SettlesReplaced(t, clusters, host, m);
      TurnReplaces(t, m, host, None);
      var i :| 0 <= i < |clusters| && clusters[i] == m;
      forall m' | ReplacerAt(t, clusters, host, address, m')
        ensures m' == m
      {
        assert m == m';
      }
    } else if KeeperAt(t, clusters, host, address) {
      var i :| 0 <= i < |clusters| && clusters[i].ingress == address && Keeps(t, clusters[i], host);
      var ep := KeptEndpoint(t, clusters[i], host);
      forall d | d in clusters && d.ingress == address
        ensures GoesAlong(t, d, host, ep)
      {
        assert clusters[i] in clusters;
        if Absorbed(t, clusters, host, address, ep) {
          var m :| m in clusters && m.ingress == address && Replaces(t, m, host) && EitherOf(m, ep);
          assert ReplacerAt(t, clusters, host, address, m);
        }
      }
      SettlesAgreed(t, clusters, host, address, ep);
    } else {
      SettlesEmpty(t, clusters, host, address);
    }
  }

  lemma Permuted(t: Trigger, a: seq<Cluster>, b: seq<Cluster>, host: string)
    requires multiset(a) == multiset(b)
    ensures forall c :: c in a <==> c in b
    ensures Agree(t, a, host) <==> Agree(t, b, host)
    ensures IdsIdentify(a) <==> IdsIdentify(b)
    ensures forall x :: KeeperAt(t, a, host, x) <==> KeeperAt(t, b, host, x)
  {
    assert forall c :: c in a <==> c in multiset(a);
    assert forall c :: c in b <==> c in multiset(b);
    assert forall x, ep :: Absorbed(t, a, host, x, ep) <==> Absorbed(t, b, host, x, ep);
    forall x
      ensures KeeperAt(t, a, host, x) <==> KeeperAt(t, b, host, x)
    {
      KeeperIsMember(t, a, host, x);
      KeeperIsMember(t, b, host, x);
    }
  }

  lemma KeeperIsMember(t: Trigger, clusters: seq<Cluster>, host: string, address: string)
    ensures KeeperAt(t, clusters, host, address) <==>
      exists c :: c in clusters && c.ingress == address && Keeps(t, c, host)
  {
    if i :| 0 <= i < |clusters| && clusters[i].ingress == address && Keeps(t, clusters[i], host) {
      assert clusters[i] in clusters;
    }
  }

  lemma SettledAlike(t: Trigger, a: seq<Cluster>, b: seq<Cluster>, host: string, address: string)
    requires IdsIdentify(a) && Agree(t, a, host) && multiset(a) == multiset(b)
    ensures StateAt(t, a, host, address) == StateAt(t, b, host, address)
  {
    Permuted(t, a, b, host);
    Settled(t, a, host, address);
    Settled(t, b, host, address);
    assert forall m :: ReplacerAt(t, a, host, address, m) <==> ReplacerAt(t, b, host, address, m);
    if (forall m :: !ReplacerAt(t, a, host, address, m)) && KeeperAt(t, a, host, address) {
      KeeperIsMember(t, a, host, address);
      var c :| c in a && c.ingress == address && Keeps(t, c, host);
      assert c in b;
    }
  }

  /** When clusters behind one ingress agree, and so whenever ingresses are distinct, the order
      of the visits changes nothing but the order of the endpoints. */
  lemma OrderIndependent(t: Trigger, a: seq<Cluster>, b: seq<Cluster>, host: string)
    requires DistinctIds(a) && Agree(t, a, host) && multiset(a) == multiset(b)
    ensures multiset(Of(BuildAll(t, a).0, host)) == multiset(Of(BuildAll(t, b).0, host))
  {
    DistinctIdsIdentify(a);
    forall x
      ensures StateAt(t, a, host, x) == StateAt(t, b, host, x)
    {
      SettledAlike(t, a, b, host, x);
    }
    SameBuilt(t, a, b, host);
  }

  lemma DistinctIngressesAgree(t: Trigger, clusters: seq<Cluster>, host: string)
    requires DistinctIngresses(clusters)
    ensures Agree(t, clusters, host)
  {
    forall c, d | c in clusters && d in clusters && c.ingress == d.ingress && Keeps(t, c, host)
      ensures GoesAlong(t, d, host, KeptEndpoint(t, c, host))
    {
      var i :| 0 <= i < |clusters| && clusters[i] == c;
      var j :| 0 <= j < |clusters| && clusters[j] == d;
      OwnNotTaken(t, c, host);
    }
  }

  // ----- when they do not, it does ------------------------------------------------------------------

  lemma {:induction false} StateAppend(t: Trigger, a: seq<Cluster>, c: Cluster, host: string, address: string)
    ensures StateAt(t, a + [c], host, address) ==
      if c.ingress == address then Turn(t, c, host, StateAt(t, a, host, address)) else StateAt(t, a, host, address)
  {
    assert (a + [c])[..|a|] == a;
  }

  /** What stands stays, unless somebody takes it. */
  lemma {:induction false} Stays(t: Trigger, before: seq<Cluster>, rest: seq<Cluster>, host: string, ep: Endpoint)
    requires StateAt(t, before, host, ep.address) == Some(ep)
    requires forall c :: c in rest ==> !Takes(t, c, host, ep)
    ensures StateAt(t, before + rest, host, ep.address) == Some(ep)
  {
    if rest == [] {
      assert before + rest == before;
    } else {
      var n := |rest| - 1;
      assert rest == rest[..n] + [rest[n]];
      assert before + rest == before + rest[..n] + [rest[n]];
      Stays(t, before, rest[..n], host, ep);
      StateAppend(t, before + rest[..n], rest[n], host, ep.address);
      TurnLeaves(t, rest[n], host, ep);
    }
  }

  function CutOut(clusters: seq<Cluster>, i: nat): seq<Cluster>
    requires i < |clusters|
  {
    clusters[..i] + clusters[i + 1..]
  }

  lemma CutOutCounts(clusters: seq<Cluster>, i: nat)
    requires i < |clusters|
    ensures multiset(clusters) == multiset(CutOut(clusters, i)) + multiset{clusters[i]}
  {
    assert clusters == clusters[..i] + [clusters[i]] + clusters[i + 1..];
  }

  lemma CutOutDistinct(clusters: seq<Cluster>, i: nat)
    requires DistinctIds(clusters) && i < |clusters|
    ensures DistinctIds(CutOut(clusters, i))
    ensures forall x :: x in CutOut(clusters, i) ==> x in clusters && x.id != clusters[i].id
    ensures forall x :: x in clusters && x != clusters[i] ==> x in CutOut(clusters, i)
  {
    var rest := CutOut(clusters, i);
    assert forall k :: 0 <= k < |rest| ==> rest[k] == clusters[if k < i then k else k + 1];
    forall x | x in clusters && x != clusters[i]
      ensures x in rest
    {
      var k :| 0 <= k < |clusters| && clusters[k] == x;
      assert rest[if k < i then k else k - 1] == x;
    }
  }

  lemma WithoutCluster(clusters: seq<Cluster>, c: Cluster) returns (rest: seq<Cluster>)
    requires DistinctIds(clusters) && c in clusters
    ensures multiset(clusters) == multiset(rest) + multiset{c}
    ensures forall x :: x in rest ==> x in clusters && x.id != c.id
    ensures forall x :: x in clusters && x != c ==> x in rest
    ensures DistinctIds(rest)
  {
    var i :| 0 <= i < |clusters| && clusters[i] == c;
    rest := CutOut(clusters, i);
    CutOutCounts(clusters, i);
    CutOutDistinct(clusters, i);
  }

  lemma FirstState(t: Trigger, c: Cluster, host: string)
    requires Keeps(t, c, host)
    ensures StateAt(t, [c], host, c.ingress) == Some(KeptEndpoint(t, c, host))
    ensures KeptEndpoint(t, c, host).address == c.ingress
  {
    assert [c][..0] == [];
    TurnOnNothing(t, c, host);
  }

  /** A kept endpoint that nobody takes is built when its cluster is visited first. */
  lemma FirstWins(t: Trigger, clusters: seq<Cluster>, host: string, c: Cluster) returns (order: seq<Cluster>)
    requires DistinctIds(clusters) && c in clusters && Keeps(t, c, host)
    requires forall d :: d in clusters ==> !Takes(t, d, host, KeptEndpoint(t, c, host))
    ensures multiset(order) == multiset(clusters)
    ensures StateAt(t, order, host, c.ingress) == Some(KeptEndpoint(t, c, host))
  {
    var rest := WithoutCluster(clusters, c);
    order := [c] + rest;
    FirstState(t, c, host);
    Stays(t, [c], rest, host, KeptEndpoint(t, c, host));
  }

  /** A kept endpoint that another cluster removes for good: an order in which it is built. */
  lemma RemoverFirst(t: Trigger, clusters: seq<Cluster>, host: string, c: Cluster, e: Cluster) returns (order: seq<Cluster>)
    requires DistinctIds(clusters) && c in clusters && e in clusters && c.ingress == e.ingress
    requires Keeps(t, c, host) && !Keeps(t, e, host) && Takes(t, e, host, KeptEndpoint(t, c, host))
    ensures multiset(order) == multiset(clusters)
    ensures StateAt(t, order, host, c.ingress) == Some(KeptEndpoint(t, c, host))
  {
    var ep := KeptEndpoint(t, c, host);
    var others := WithoutCluster(clusters, e);
    assert c != e;
    var rest := WithoutCluster(others, c);
    order := [e] + [c] + rest;
    assert [e][..0] == [];
    TurnOnNothing(t, e, host);
    TurnOnNothing(t, c, host);
    StateAppend(t, [e], c, host, c.ingress);
    FirstState(t, c, host);
    OnlyOneTakes(t, clusters, host, e, ep);
    Stays(t, [e] + [c], rest, host, ep);
  }

  lemma OnlyOneTakes(t: Trigger, clusters: seq<Cluster>, host: string, e: Cluster, ep: Endpoint)
    requires DistinctIds(clusters) && e in clusters && e.id == t.cluster
    ensures forall d :: d in clusters && d != e ==> !Takes(t, d, host, ep)
  {
    DistinctIdsIdentify(clusters);
  }

  /** Visited last, the remover has removed it. */
  lemma RemoverLast(t: Trigger, clusters: seq<Cluster>, host: string, c: Cluster, e: Cluster) returns (order: seq<Cluster>)
    requires DistinctIds(clusters) && c in clusters && e in clusters && c.ingress == e.ingress
    requires Keeps(t, c, host) && Takes(t, e, host, KeptEndpoint(t, c, host)) && !Replaces(t, e, host)
    ensures multiset(order) == multiset(clusters)
    ensures StateAt(t, order, host, c.ingress) == None
  {
    var ep := KeptEndpoint(t, c, host);
    OwnNotTaken(t, c, host);
    var others := WithoutCluster(clusters, e);
    var rest := WithoutCluster(others, c);
    order := [c] + rest + [e];
    FirstState(t, c, host);
    OnlyOneTakes(t, clusters, host, e, ep);
    Stays(t, [c], rest, host, ep);
    StateAppend(t, [c] + rest, e, host, c.ingress);
    TurnTakes(t, e, host, Some(ep), ep);
  }

  ghost predicate OrderIrrelevant(t: Trigger, clusters: seq<Cluster>, host: string) {
    forall a, b :: multiset(a) == multiset(clusters) && multiset(b) == multiset(clusters) ==>
      multiset(Of(BuildAll(t, a).0, host)) == multiset(Of(BuildAll(t, b).0, host))
  }

  lemma TwoOrders(t: Trigger, clusters: seq<Cluster>, a: seq<Cluster>, b: seq<Cluster>, host: string, ep: Endpoint)
    requires multiset(a) == multiset(clusters) && multiset(b) == multiset(clusters)
    requires StateAt(t, a, host, ep.address) == Some(ep) && StateAt(t, b, host, ep.address) != Some(ep)
    ensures !OrderIrrelevant(t, clusters, host)
  {
    DifferentBuilt(t, a, b, host, ep.address, ep);
  }

  /** One cluster keeps what another removes for good. */
  lemma RemovalShows(t: Trigger, clusters: seq<Cluster>, host: string, c: Cluster, e: Cluster)
    requires DistinctIds(clusters) && c in clusters && e in clusters && c.ingress == e.ingress
    requires Keeps(t, c, host) && Takes(t, e, host, KeptEndpoint(t, c, host)) && !Replaces(t, e, host)
    ensures !OrderIrrelevant(t, clusters, host)
  {
    TakesOnlyAtEvent(t, e, host, KeptEndpoint(t, c, host));
    var last := RemoverLast(t, clusters, host, c, e);
    if Keeps(t, e, host) {
      OnlyOneTakes(t, clusters, host, e, KeptEndpoint(t, e, host));
      OwnNotTaken(t, e, host);
      FirstState(t, e, host);
      var first := FirstWins(t, clusters, host, e);
      TwoOrders(t, clusters, first, last, host, KeptEndpoint(t, e, host));
    } else {
      FirstState(t, c, host);
      var first := RemoverFirst(t, clusters, host, c, e);
      TwoOrders(t, clusters, first, last, host, KeptEndpoint(t, c, host));
    }
  }

  /** Two clusters keep different endpoints, and nobody takes either. */
  lemma DifferenceShows(t: Trigger, clusters: seq<Cluster>, host: string, c: Cluster, d: Cluster)
    requires DistinctIds(clusters) && c in clusters && d in clusters && c.ingress == d.ingress
    requires Keeps(t, c, host) && Keeps(t, d, host) && KeptEndpoint(t, c, host) != KeptEndpoint(t, d, host)
    requires forall e :: e in clusters ==>
      !Takes(t, e, host, KeptEndpoint(t, c, host)) && !Takes(t, e, host, KeptEndpoint(t, d, host))
    ensures !OrderIrrelevant(t, clusters, host)
  {
    FirstState(t, c, host);
    var a := FirstWins(t, clusters, host, c);
    var b := FirstWins(t, clusters, host, d);
    TwoOrders(t, clusters, a, b, host, KeptEndpoint(t, c, host));
  }

  lemma DisagreementShows(t: Trigger, clusters: seq<Cluster>, host: string, c: Cluster, d: Cluster)
    requires DistinctIds(clusters) && c in clusters && d in clusters && c.ingress == d.ingress && Keeps(t, c, host)
    requires !Absorbed(t, clusters, host, c.ingress, KeptEndpoint(t, c, host))
    requires !GoesAlong(t, d, host, KeptEndpoint(t, c, host))
    ensures !OrderIrrelevant(t, clusters, host)
  {
    var ep := KeptEndpoint(t, c, host);
    FirstState(t, c, host);
    if e :| e in clusters && Takes(t, e, host, ep) {
      TakesOnlyAtEvent(t, e, host, ep);
      RemovalShows(t, clusters, host, c, e);
    } else {
      var other := KeptEndpoint(t, d, host);
      FirstState(t, d, host);
      if e :| e in clusters && Takes(t, e, host, other) {
        TakesOnlyAtEvent(t, e, host, other);
        if Replaces(t, e, host) {
          ReplacerShows(t, clusters, host, c, e);
        } else {
          RemovalShows(t, clusters, host, d, e);
        }
      } else {
        DifferenceShows(t, clusters, host, c, d);
      }
    }
  }

  /** A cluster keeps neither of the two endpoints of a replacing one. */
  lemma ReplacerShows(t: Trigger, clusters: seq<Cluster>, host: string, c: Cluster, m: Cluster)
    requires DistinctIds(clusters) && c in clusters && m in clusters && c.ingress == m.ingress
    requires Keeps(t, c, host) && Replaces(t, m, host) && !EitherOf(m, KeptEndpoint(t, c, host))
    requires forall e :: e in clusters ==> !Takes(t, e, host, KeptEndpoint(t, c, host))
    ensures !OrderIrrelevant(t, clusters, host)
  {
    TurnReplaces(t, m, host, None);
    OwnNotTaken(t, m, host);
    OnlyOneTakes(t, clusters, host, m, KeptEndpoint(t, m, host));
    DifferenceShows(t, clusters, host, c, m);
  }

  /** Main result: the order in which the clusters are visited does not matter exactly when
      clusters behind one ingress agree. Cluster ids are distinct, as keys of a map. */
  lemma OrderIndependentExactly(t: Trigger, clusters: seq<Cluster>, host: string)
    requires DistinctIds(clusters)
    ensures OrderIrrelevant(t, clusters, host) <==> Agree(t, clusters, host)
  {
    if Agree(t, clusters, host) {
      forall a, b | multiset(a) == multiset(clusters) && multiset(b) == multiset(clusters)
        ensures multiset(Of(BuildAll(t, a).0, host)) == multiset(Of(BuildAll(t, b).0, host))
      {
        OrderIndependent(t, clusters, a, host);
        OrderIndependent(t, clusters, b, host);
      }
    } else {
      var c, d :| c in clusters && d in clusters && c.ingress == d.ingress && Keeps(t, c, host) &&
        !Absorbed(t, clusters, host, c.ingress, KeptEndpoint(t, c, host)) &&
        !GoesAlong(t, d, host, KeptEndpoint(t, c, host));
      DisagreementShows(t, clusters, host, c, d);
    }
  }

  // ----- what agreeing clusters build -----------------------------------------------------------------

  predicate KeptBySome(t: Trigger, clusters: seq<Cluster>, host: string, ep: Endpoint) {
    exists i :: 0 <= i < |clusters| && Keeps(t, clusters[i], host) && KeptEndpoint(t, clusters[i], host) == ep
  }

  /** A deployment endpoint that the event replaces by the rollout's. */
  predicate Replaced(t: Trigger, clusters: seq<Cluster>, host: string, ep: Endpoint) {
    exists i :: 0 <= i < |clusters| && Replaces(t, clusters[i], host) &&
      ep == EndpointOf(clusters[i], clusters[i].deployment.value, Deployment)
  }

  /** When clusters behind one ingress agree, the loop builds exactly the endpoints that some
      cluster keeps and none replaces, one for each address. */
  lemma BuiltEndpoints(t: Trigger, clusters: seq<Cluster>, host: string)
    requires DistinctIds(clusters) && Agree(t, clusters, host)
    ensures
      var eps := Of(BuildAll(t, clusters).0, host);
      && DistinctAddresses(eps)
      && forall ep :: ep in eps <==> KeptBySome(t, clusters, host, ep) && !Replaced(t, clusters, host, ep)
  {
    BuiltMembers(t, clusters, host);
    forall ep: Endpoint
      ensures StateAt(t, clusters, host, ep.address) == Some(ep) <==>
        KeptBySome(t, clusters, host, ep) && !Replaced(t, clusters, host, ep)
    {
      BuiltEndpoint(t, clusters, host, ep);
    }
  }

  lemma BuiltEndpoint(t: Trigger, clusters: seq<Cluster>, host: string, ep: Endpoint)
    requires DistinctIds(clusters) && Agree(t, clusters, host)
    ensures StateAt(t, clusters, host, ep.address) == Some(ep) <==>
      KeptBySome(t, clusters, host, ep) && !Replaced(t, clusters, host, ep)
  {
    DistinctIdsIdentify(clusters);
    Settled(t, clusters, host, ep.address);
    KeeperIsMember(t, clusters, host, ep.address);
    if m :| ReplacerAt(t, clusters, host, ep.address, m) {
      BuiltAtReplacer(t, clusters, host, ep, m);
    } else {
      forall i | 0 <= i < |clusters| && Replaces(t, clusters[i], host)
        ensures clusters[i].ingress != ep.address
      {
        assert clusters[i] in clusters;
        assert !ReplacerAt(t, clusters, host, ep.address, clusters[i]);
      }
      assert forall i :: 0 <= i < |clusters| ==> clusters[i] in clusters;
      if StateAt(t, clusters, host, ep.address) == Some(ep) {
        var c :| c in clusters && c.ingress == ep.address && Keeps(t, c, host);
        var i :| 0 <= i < |clusters| && clusters[i] == c;
        assert KeptEndpoint(t, clusters[i], host) == ep;
      }
    }
  }

  lemma BuiltAtReplacer(t: Trigger, clusters: seq<Cluster>, host: string, ep: Endpoint, m: Cluster)
    requires IdsIdentify(clusters) && Agree(t, clusters, host) && ReplacerAt(t, clusters, host, ep.address, m)
    ensures ep == EndpointOf(m, m.rollout.value, Rollout) <==>
      KeptBySome(t, clusters, host, ep) && !Replaced(t, clusters, host, ep)
  {
    TurnReplaces(t, m, host, None);
    var k :| 0 <= k < |clusters| && clusters[k] == m;
    assert forall i :: 0 <= i < |clusters| ==> clusters[i] in clusters;
    if KeptBySome(t, clusters, host, ep) {
      var i :| 0 <= i < |clusters| && Keeps(t, clusters[i], host) && KeptEndpoint(t, clusters[i], host) == ep;
      AgreeingFollow(t, clusters, host, m, clusters[i]);
      assert EitherOf(m, ep);
      assert ep == EndpointOf(m, m.deployment.value, Deployment) ==> Replaced(t, clusters, host, ep);
    }
  }

  /** The addresses are free of duplicates and are exactly the ingresses of the clusters
      that keep the host. */
  lemma BuiltAddresses(t: Trigger, clusters: seq<Cluster>, host: string)
    requires DistinctIds(clusters) && Agree(t, clusters, host)
    ensures
      var eps := Of(BuildAll(t, clusters).0, host);
      DistinctAddresses(eps) && forall a :: HasAddress(eps, a) <==> KeeperAt(t, clusters, host, a)
  {
    BuiltMembers(t, clusters, host);
    DistinctIdsIdentify(clusters);
    forall a
      ensures StateAt(t, clusters, host, a).Some? <==> KeeperAt(t, clusters, host, a)
    {
      Settled(t, clusters, host, a);
    }
  }

  /** During a migration, deleting the deployment of the event cluster leaves its endpoint in
      the entry of every host both offer, as the rollout's, and the other way round. */
  lemma MigrationKeepsEndpoint(t: Trigger, clusters: seq<Cluster>, c: Cluster, host: string)
    requires DistinctIds(clusters) && Agree(t, clusters, host) && c in clusters
    requires Offers(c, Deployment, host) && Offers(c, Rollout, host)
    ensures
      var eps := Of(BuildAll(t, clusters).0, host);
      && HasAddress(eps, c.ingress)
      && (t == Trigger(Delete, c.id, Some(Deployment)) ==> EndpointOf(c, c.rollout.value, Rollout) in eps)
      && (t == Trigger(Delete, c.id, Some(Rollout)) ==> EndpointOf(c, c.deployment.value, Deployment) in eps)
  {
    var i :| 0 <= i < |clusters| && clusters[i] == c;
    BuiltAddresses(t, clusters, host);
    BuiltMembers(t, clusters, host);
    DistinctIdsIdentify(clusters);
    Settled(t, clusters, host, c.ingress);
    if t == Trigger(Delete, c.id, Some(Deployment)) {
      assert ReplacerAt(t, clusters, host, c.ingress, c);
    }
  }

  /** Outside a migration a delete takes the event cluster's address out of the built entry,
      and no other cluster's. */
  lemma DeleteRemovesEventCluster(t: Trigger, clusters: seq<Cluster>, c: Cluster, host: string)
    requires DistinctIngresses(clusters) && c in clusters && t.event.Delete? && !Migrating(c)
    ensures HasAddress(Of(BuildAll(t, clusters).0, host), c.ingress) <==>
      c.id != t.cluster && (Offers(c, Deployment, host) || Offers(c, Rollout, host))
  {
    BuildIsExact(t, clusters, host);
    KeptAddresses(t, clusters, host, c.ingress);
    var k :| 0 <= k < |clusters| && clusters[k] == c;
    assert forall i :: 0 <= i < |clusters| && clusters[i].ingress == c.ingress ==> i == k;
  }

  /** With distinct ingresses every workload that has a service and offers the host gets its
      endpoint, the deployment before the rollout, unless the event deletes it. */
  lemma BuiltCompletely(t: Trigger, clusters: seq<Cluster>, c: Cluster, host: string)
    requires DistinctIngresses(clusters) && c in clusters
    ensures
      var eps := Of(BuildAll(t, clusters).0, host);
      var d := c.deployment.Some? && c.deployment.value.hasService && host in c.deployment.value.hosts;
      var r := c.rollout.Some? && c.rollout.value.hasService && host in c.rollout.value.hosts &&
        (c.deployment.Some? ==> c.deployment.value.hasService);
      var deleting := t.event.Delete? && t.cluster == c.id;
      var both := c.deployment.Some? && c.rollout.Some?;
      var keepsD := d && !(deleting && (both ==> t.resource == Some(Deployment)));
      var keepsR := r && !(deleting && (both ==> t.resource == Some(Rollout)));
      && (keepsD ==> Endpoint(c.ingress, map[c.deployment.value.protocol := c.port], c.locality, 0, Some(Deployment)) in eps)
      && (!keepsD && keepsR ==> Endpoint(c.ingress, map[c.rollout.value.protocol := c.port], c.locality, 0, Some(Rollout)) in eps)
      && (!keepsD && !keepsR ==> !HasAddress(eps, c.ingress))
  {
    BuildIsExact(t, clusters, host);
    KeptAddresses(t, clusters, host, c.ingress);
    var k :| 0 <= k < |clusters| && clusters[k] == c;
    assert forall i :: 0 <= i < |clusters| && clusters[i].ingress == c.ingress ==> i == k;
    if Keeps(t, c, host) {
      KeptIsMember(t, clusters, host, k);
    }
  }

  lemma {:induction false} KeptIsMember(t: Trigger, clusters: seq<Cluster>, host: string, k: nat)
    requires k < |clusters| && Keeps(t, clusters[k], host)
    ensures KeptEndpoint(t, clusters[k], host) in KeptEndpoints(t, clusters, host)
  {
    if k < |clusters| - 1 {
      KeptIsMember(t, clusters[..|clusters| - 1], host, k);
    }
  }

  /** A harmless disagreement: another cluster keeps the endpoint of the deployment that is
      deleted, and the rollout's replaces it in every order. */
  lemma HarmlessDisagreement(host: string, ingress: string)
    ensures
      var w, v := Workload([host], true, "http"), Workload([host], true, "http2");
      var a := Cluster("a", ingress, 15443, "r", Some(w), None);
      var b := Cluster("b", ingress, 15443, "r", Some(w), Some(v));
      var t := Trigger(Delete, "b", Some(Deployment));
      && KeptEndpoint(t, a, host) != KeptEndpoint(t, b, host)
      && OrderIrrelevant(t, [a, b], host)
  {
    var w, v := Workload([host], true, "http"), Workload([host], true, "http2");
    var a := Cluster("a", ingress, 15443, "r", Some(w), None);
    var b := Cluster("b", ingress, 15443, "r", Some(w), Some(v));
    var t := Trigger(Delete, "b", Some(Deployment));
    assert "a" != "b" by {
      assert "a"[0] != "b"[0];
    }
    assert b in [a, b] && Replaces(t, b, host) && EitherOf(b, KeptEndpoint(t, a, host)) && EitherOf(b, KeptEndpoint(t, b, host));
    assert Agree(t, [a, b], host);
    OrderIndependentExactly(t, [a, b], host);
  }
}
