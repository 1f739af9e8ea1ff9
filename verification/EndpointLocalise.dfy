/** The loop that writes the shared service entries to the source clusters: each source
    cluster gets its own ingress endpoint replaced by local services. The replacement is
    made in place on the shared endpoint objects and swapped back after the write. */
module EndpointLocalise {
  import opened Mesh
  import opened Prelude

  datatype Service = Service(fqdn: string, ports: Ports)

  datatype BlueGreen = BlueGreen(active: Option<Service>, preview: Option<Service>)

  datatype WeightedService = WeightedService(fqdn: string, weight: int)

  /** `deleted` is what the delete event removed in this cluster, `present` what it runs. */
  datatype Migration = Migration(
    deployment: Option<Service>, rollout: Option<Service>, deleted: Option<AppType>, present: set<AppType>)

  /** What the loop knows about one source cluster. */
  datatype Source = Source(
    id: string, ingress: string, local: Service,
    blueGreen: Option<BlueGreen>, canaryFqdn: Option<string>, weighted: seq<WeightedService>,
    migrating: bool, deleteEntry: bool, migration: Migration)

  datatype Mode = InBlueGreen | InCanary | InWeighted | InMigration | InRegular

  const PREVIEW_PREFIX := "preview."
  const CANARY_PREFIX := "canary"

  function ModeOf(src: Source, host: string): Mode {
    if src.blueGreen.Some? then InBlueGreen
    else if src.canaryFqdn.Some? && CANARY_PREFIX <= host then InCanary
    else if |src.weighted| > 1 then InWeighted
    else if src.migrating then InMigration
    else InRegular
  }

  predicate ChangesInPlace(m: Mode) {
    m.InBlueGreen? || m.InCanary? || m.InRegular?
  }

  predicate Matches(src: Source, ep: Endpoint) {
    ep.address == src.ingress || ep.address == ""
  }

  function MovedTo(ep: Endpoint, s: Service): Endpoint {
    ep.(address := s.fqdn, ports := s.ports)
  }

  /** The in-place replacement of a matching endpoint. */
  function Localised(src: Source, host: string, ep: Endpoint): Endpoint
    requires ChangesInPlace(ModeOf(src, host))
  {
    match ModeOf(src, host)
    case InBlueGreen =>
      if PREVIEW_PREFIX <= host && src.blueGreen.value.preview.Some? then MovedTo(ep, src.blueGreen.value.preview.value)
      else if src.blueGreen.value.active.Some? then MovedTo(ep, src.blueGreen.value.active.value)
      else ep
    case InCanary => MovedTo(ep, Service(src.canaryFqdn.value, src.local.ports))
    case InRegular => MovedTo(ep, src.local)
  }

  // ----- the two replacements that work on a copy of the entry ----------------------------------

  function WeightedCopies(services: seq<WeightedService>, ep: Endpoint, ports: Ports): seq<Endpoint> {
    if services == [] then []
    else
      var s := services[0];
      (if s.weight <= 0 then [] else [ep.(address := s.fqdn, ports := ports, weight := s.weight)]) +
      WeightedCopies(services[1..], ep, ports)
  }

  function NotMatching(src: Source, eps: seq<Endpoint>): seq<Endpoint> {
    if eps == [] then []
    else (if Matches(src, eps[0]) then [] else [eps[0]]) + NotMatching(src, eps[1..])
  }

  /** The latest matching endpoint is the model for the weighted ones. */
  function LastMatching(src: Source, eps: seq<Endpoint>): Option<Endpoint> {
    if eps == [] then None
    else
      var n := |eps| - 1;
      if Matches(src, eps[n]) then Some(eps[n]) else LastMatching(src, eps[..n])
  }

  function WeightedView(src: Source, eps: seq<Endpoint>): seq<Endpoint> {
    match LastMatching(src, eps)
    case None => eps
    case Some(ep) => NotMatching(src, eps) + WeightedCopies(src.weighted, ep, src.local.ports)
  }

  lemma {:induction false} NotMatchingAppend(src: Source, eps: seq<Endpoint>, ep: Endpoint)
    ensures NotMatching(src, eps + [ep]) == NotMatching(src, eps) + if Matches(src, ep) then [] else [ep]
  {
    if eps == [] {
      assert eps + [ep] == [ep];
    } else {
      assert (eps + [ep])[1..] == eps[1..] + [ep];
      NotMatchingAppend(src, eps[1..], ep);
    }
  }

  lemma {:induction false} WeightedCopiesAppend(services: seq<WeightedService>, s: WeightedService, ep: Endpoint, ports: Ports)
    ensures WeightedCopies(services + [s], ep, ports) == WeightedCopies(services, ep, ports) +
      if s.weight <= 0 then [] else [ep.(address := s.fqdn, ports := ports, weight := s.weight)]
  {
    if services == [] {
      assert services + [s] == [s];
    } else {
      assert (services + [s])[1..] == services[1..] + [s];
      WeightedCopiesAppend(services[1..], s, ep, ports);
    }
  }

  method UpdateEndpointsForWeightedServices(src: Source, eps: seq<Endpoint>) returns (view: seq<Endpoint>)
    ensures view == WeightedView(src, eps)
  {
    view := [];
    var toReplace: Option<Endpoint> := None;
    for i := 0 to |eps|
      invariant view == NotMatching(src, eps[..i])
      invariant toReplace == LastMatching(src, eps[..i])
    {
      NotMatchingAppend(src, eps[..i], eps[i]);
      assert eps[..i + 1] == eps[..i] + [eps[i]] && eps[..i + 1][..i] == eps[..i];
      if Matches(src, eps[i]) {
        toReplace := Some(eps[i]);
      } else {
        view := view + [eps[i]];
      }
    }
    assert eps[..|eps|] == eps;
    if toReplace.None? {
      return eps;
    }
    ghost var others := view;
    for i := 0 to |src.weighted|
      invariant view == others + WeightedCopies(src.weighted[..i], toReplace.value, src.local.ports)
    {
      var s := src.weighted[i];
      WeightedCopiesAppend(src.weighted[..i], s, toReplace.value, src.local.ports);
      assert src.weighted[..i + 1] == src.weighted[..i] + [s];
      if s.weight > 0 {
        view := view + [toReplace.value.(address := s.fqdn, ports := src.local.ports, weight := s.weight)];
      }
    }
    assert src.weighted[..|src.weighted|] == src.weighted;
  }

  predicate Survives(m: Migration, a: AppType) {
    m.deleted != Some(a) && a in m.present
  }

  function MigratedEndpoints(m: Migration, ep: Endpoint): seq<Endpoint>
    requires m.deployment.Some? && m.rollout.Some?
  {
    (if Survives(m, Deployment)
     then [Endpoint(m.deployment.value.fqdn, m.deployment.value.ports, ep.locality, 0, Some(Deployment))] else []) +
    (if Survives(m, Rollout)
     then [Endpoint(m.rollout.value.fqdn, m.rollout.value.ports, ep.locality, 0, Some(Rollout))] else [])
  }

  function MigrationView(src: Source, eps: seq<Endpoint>): seq<Endpoint>
    requires src.migration.deployment.Some? && src.migration.rollout.Some?
  {
    if eps == [] then []
    else
      MigrationView(src, eps[..|eps| - 1]) +
      var ep := eps[|eps| - 1];
      if ep.address == src.ingress then MigratedEndpoints(src.migration, ep) else [ep.(appType := None)]
  }

  /** None when one of the two services is not known yet. */
  method UpdateEndpointsForMigration(src: Source, eps: seq<Endpoint>) returns (view: Option<seq<Endpoint>>)
    ensures view.None? <==> src.migration.deployment.None? || src.migration.rollout.None?
    ensures view.Some? ==> view.value == MigrationView(src, eps)
  {
    var m := src.migration;
    if m.deployment.None? || m.rollout.None? {
      return None;
    }
    var list: seq<Endpoint> := [];
    for i := 0 to |eps|
      invariant list == MigrationView(src, eps[..i])
    {
      var ep := eps[i];
      assert eps[..i + 1][..i] == eps[..i];
      if ep.address == src.ingress {
        if m.deleted != Some(Deployment) && Deployment in m.present {
          list := list + [Endpoint(m.deployment.value.fqdn, m.deployment.value.ports, ep.locality, 0, Some(Deployment))];
        }
        if m.deleted != Some(Rollout) && Rollout in m.present {
          list := list + [Endpoint(m.rollout.value.fqdn, m.rollout.value.ports, ep.locality, 0, Some(Rollout))];
        }
      } else {
        list := list + [ep.(appType := None)];
      }
    }
    assert eps[..|eps|] == eps;
    return Some(list);
  }

  // ----- the loop over the endpoints of one entry, on values ----------------------------------

  function SwappedBack(src: Source, eps: seq<Endpoint>, k: nat): seq<Endpoint>
    requires k < |eps|
  {
    eps[k := eps[k].(address := src.ingress)]
  }

  predicate Stuck(src: Source, host: string) {
    ModeOf(src, host).InMigration? && (src.migration.deployment.None? || src.migration.rollout.None?)
  }

  function View(src: Source, host: string, eps: seq<Endpoint>, k: nat): seq<Endpoint>
    requires k < |eps| && !Stuck(src, host)
  {
    var m := ModeOf(src, host);
    if ChangesInPlace(m) then eps[k := Localised(src, host, eps[k])]
    else if m.InWeighted? then WeightedView(src, eps)
    else MigrationView(src, eps)
  }

  function AfterWrite(src: Source, host: string, eps: seq<Endpoint>, k: nat): seq<Endpoint>
    requires k < |eps|
  {
    if ChangesInPlace(ModeOf(src, host)) then SwappedBack(src, eps, k) else eps
  }

  /** The writes of the entry after `written`, from endpoint `k` on, and the endpoints afterwards. */
  function FromEndpoint(src: Source, host: string, eps: seq<Endpoint>, k: nat, written: seq<seq<Endpoint>>): (r: (seq<seq<Endpoint>>, seq<Endpoint>))
    requires k <= |eps|
    ensures |r.1| == |eps|
    decreases |eps| - k
  {
    if k == |eps| then (written, eps)
    else if !Matches(src, eps[k]) then FromEndpoint(src, host, eps, k + 1, written)
    else if Stuck(src, host) then (written, eps)
    else FromEndpoint(src, host, AfterWrite(src, host, eps, k), k + 1, written + [View(src, host, eps, k)])
  }

  /** An entry without endpoints, or one the delete event takes from this cluster, is
      written as it is first. */
  function PlainWrite(src: Source, eps: seq<Endpoint>): seq<seq<Endpoint>> {
    if eps == [] || (!src.migrating && src.deleteEntry) then [eps] else []
  }

  /** Everything written for one entry in one source cluster, and the entry afterwards. */
  function Entry(src: Source, host: string, eps: seq<Endpoint>): (seq<seq<Endpoint>>, seq<Endpoint>) {
    FromEndpoint(src, host, eps, 0, PlainWrite(src, eps))
  }

  // ----- the loop on the shared objects ----------------------------------------------------------

  class WorkloadEntry {
    var address: string
    var ports: Ports
    var locality: string
    var weight: nat
    var appType: Option<AppType>

    function Value(): Endpoint reads this {
      Endpoint(address, ports, locality, weight, appType)
    }
  }

  /** A shared entry; its list of endpoint objects does not change in this loop. */
  datatype SharedEntry = SharedEntry(host: string, endpoints: seq<WorkloadEntry>)

  function Values(eps: seq<WorkloadEntry>): (r: seq<Endpoint>)
    reads eps
    ensures |r| == |eps|
    ensures forall i :: 0 <= i < |eps| ==> r[i] == eps[i].Value()
  {
    seq(|eps|, i requires 0 <= i < |eps| reads eps => eps[i].Value())
  }

  method UpdateEndpointsForBlueGreen(src: Source, host: string, ep: WorkloadEntry)
    requires src.blueGreen.Some?
    modifies ep
    ensures ep.Value() == Localised(src, host, old(ep.Value()))
  {
    var bg := src.blueGreen.value;
    if PREVIEW_PREFIX <= host && bg.preview.Some? {
      ep.address := bg.preview.value.fqdn;
      ep.ports := bg.preview.value.ports;
    } else if bg.active.Some? {
      ep.address := bg.active.value.fqdn;
      ep.ports := bg.active.value.ports;
    }
  }

  predicate Distinct(eps: seq<WorkloadEntry>) {
    forall i, j :: 0 <= i < j < |eps| ==> eps[i] != eps[j]
  }

  /** Swap a matching endpoint to its local service, write the entry, swap it back. */
  method WriteSwapped(src: Source, host: string, eps: seq<WorkloadEntry>, k: nat) returns (write: seq<Endpoint>)
    requires Distinct(eps) && k < |eps| && ChangesInPlace(ModeOf(src, host))
    modifies eps[k]
    ensures write == View(src, host, old(Values(eps)), k)
    ensures Values(eps) == SwappedBack(src, old(Values(eps)), k)
  {
    var ep := eps[k];
    ghost var before := Values(eps);
    var oldPorts := ep.ports;
    if src.blueGreen.Some? {
      UpdateEndpointsForBlueGreen(src, host, ep);
    } else if src.canaryFqdn.Some? && CANARY_PREFIX <= host {
      ep.address := src.canaryFqdn.value;
      ep.ports := src.local.ports;
    } else {
      ep.address := src.local.fqdn;
      ep.ports := src.local.ports;
    }
    assert forall i :: 0 <= i < |eps| && i != k ==> eps[i].Value() == before[i];
    write := Values(eps);
    assert write == before[k := Localised(src, host, before[k])];
    ep.address := src.ingress;
    ep.ports := oldPorts;
    assert forall i :: 0 <= i < |eps| && i != k ==> eps[i].Value() == before[i];
  }

  /** The replacement made on a copy; None when a service of the migration is missing. */
  method WriteCopy(src: Source, host: string, eps: seq<Endpoint>) returns (write: Option<seq<Endpoint>>)
    requires !ChangesInPlace(ModeOf(src, host))
    ensures write.None? <==> Stuck(src, host)
    ensures forall k :: 0 <= k < |eps| && write.Some? ==> write.value == View(src, host, eps, k)
  {
    if |src.weighted| > 1 {
      var view := UpdateEndpointsForWeightedServices(src, eps);
      write := Some(view);
    } else {
      write := UpdateEndpointsForMigration(src, eps);
    }
  }

  /** One iteration over the endpoints. `stop` leaves the entry for a later retry. */
  method LocaliseEndpoint(src: Source, host: string, eps: seq<WorkloadEntry>, k: nat)
    returns (write: Option<seq<Endpoint>>, stop: bool)
    requires Distinct(eps) && k < |eps|
    modifies eps[k]
    ensures stop <==> Matches(src, old(eps[k].Value())) && Stuck(src, host)
    ensures write == if Matches(src, old(eps[k].Value())) && !Stuck(src, host)
                     then Some(View(src, host, old(Values(eps)), k)) else None
    ensures Values(eps) == if write.Some? then AfterWrite(src, host, old(Values(eps)), k) else old(Values(eps))
  {
    write, stop := None, false;
    if eps[k].address == src.ingress || eps[k].address == "" {
      if ChangesInPlace(ModeOf(src, host)) {
        var view := WriteSwapped(src, host, eps, k);
        write := Some(view);
      } else {
        write := WriteCopy(src, host, Values(eps));
        stop := write.None?;
      }
    }
  }

  /** One entry for one source cluster: everything handed to the writer, in order. */
  method LocaliseEntry(src: Source, entry: SharedEntry) returns (writes: seq<seq<Endpoint>>)
    requires Distinct(entry.endpoints)
    modifies entry.endpoints
    ensures (writes, Values(entry.endpoints)) == Entry(src, entry.host, old(Values(entry.endpoints)))
  {
    var eps, host := entry.endpoints, entry.host;
    writes := [];
    if |eps| == 0 || (!src.migrating && src.deleteEntry) {
      writes := [Values(eps)];
    }
    ghost var now := Values(eps);
    ghost var result := FromEndpoint(src, host, now, 0, writes);
    var k := 0;
    while k < |eps|
      invariant 0 <= k <= |eps| == |now|
      invariant Values(eps) == now
      invariant result == FromEndpoint(src, host, now, k, writes)
    {
      var write, stop := LocaliseEndpoint(src, host, eps, k);
      if stop {
        break;
      }
      if write.Some? {
        now := AfterWrite(src, host, now, k);
        writes := writes + [write.value];
      }
      k := k + 1;
    }
  }

  // ----- the shared entry is restored ---------------------------------------------------------------

  /** What swapping back does: an endpoint without an address ends up with the ingress. */
  function Restored(src: Source, ep: Endpoint): Endpoint {
    if ep.address == "" then ep.(address := src.ingress) else ep
  }

  lemma {:induction false} AfterEndpoints(src: Source, host: string, eps: seq<Endpoint>, k: nat, written: seq<seq<Endpoint>>)
    requires k <= |eps|
    ensures
      var after := FromEndpoint(src, host, eps, k, written).1;
      if ChangesInPlace(ModeOf(src, host))
      then forall i :: 0 <= i < |eps| ==> after[i] == if i < k then eps[i] else Restored(src, eps[i])
      else after == eps
    decreases |eps| - k
  {
    if k < |eps| {
      if !Matches(src, eps[k]) {
        AfterEndpoints(src, host, eps, k + 1, written);
      } else if !Stuck(src, host) {
        AfterEndpoints(src, host, AfterWrite(src, host, eps, k), k + 1, written + [View(src, host, eps, k)]);
      }
    }
  }

  /** After a source cluster has been served, the shared entry is what it was before exactly
      when no endpoint without an address was swapped in place. */
  lemma EntryRestoredExactly(src: Source, host: string, eps: seq<Endpoint>)
    ensures Entry(src, host, eps).1 == eps <==>
      (ChangesInPlace(ModeOf(src, host)) && src.ingress != "" ==> forall i :: 0 <= i < |eps| ==> eps[i].address != "")
  {
    AfterEndpoints(src, host, eps, 0, PlainWrite(src, eps));
    var after := Entry(src, host, eps).1;
    if after == eps && ChangesInPlace(ModeOf(src, host)) {
      assert forall i :: 0 <= i < |eps| ==> eps[i] == Restored(src, eps[i]);
    }
  }

  function Objects(entries: seq<SharedEntry>): set<WorkloadEntry> {
    set i, k | 0 <= i < |entries| && 0 <= k < |entries[i].endpoints| :: entries[i].endpoints[k]
  }

  /** The values of all endpoint objects, entry by entry. */
  function AllValues(entries: seq<SharedEntry>): (r: seq<seq<Endpoint>>)
    reads Objects(entries)
    ensures |r| == |entries| && forall i :: 0 <= i < |entries| ==> r[i] == Values(entries[i].endpoints)
  {
    seq(|entries|, i requires 0 <= i < |entries| reads Objects(entries) => Values(entries[i].endpoints))
  }

  /** What one source cluster is written when it goes over the entries in the given order. */
  predicate WrittenInOrder(
      src: Source, entries: seq<SharedEntry>, values: seq<seq<Endpoint>>, order: seq<nat>, writes: seq<seq<seq<Endpoint>>>)
    requires |values| == |entries|
  {
    |writes| == |order| && forall i :: 0 <= i < |order| ==>
      order[i] < |entries| && writes[i] == Entry(src, entries[order[i]].host, values[order[i]]).0
  }

  predicate HaveAddresses(values: seq<seq<Endpoint>>) {
    forall i, k :: 0 <= i < |values| && 0 <= k < |values[i]| ==> values[i][k].address != ""
  }

  /** One entry among others, with which it may share endpoint objects. */
  method LocaliseOne(src: Source, entries: seq<SharedEntry>, n: nat) returns (writes: seq<seq<Endpoint>>)
    requires n < |entries| && Distinct(entries[n].endpoints)
    modifies Objects(entries)
    ensures HaveAddresses(old(AllValues(entries))) ==>
      && AllValues(entries) == old(AllValues(entries))
      && writes == Entry(src, entries[n].host, old(AllValues(entries))[n]).0
  {
    ghost var values := AllValues(entries);
    assert forall i, k :: 0 <= i < |entries| && 0 <= k < |entries[i].endpoints| ==> entries[i].endpoints[k] in Objects(entries);
    writes := LocaliseEntry(src, entries[n]);
    EntryRestoredExactly(src, entries[n].host, values[n]);
    if HaveAddresses(values) {
      assert Values(entries[n].endpoints) == values[n];
      forall ep | ep in Objects(entries)
        ensures ep.Value() == old(ep.Value())
      {
        if ep in entries[n].endpoints {
          var k :| 0 <= k < |entries[n].endpoints| && entries[n].endpoints[k] == ep;
          assert values[n][k] == ep.Value();
        }
      }
      assert forall i :: 0 <= i < |entries| ==> Values(entries[i].endpoints) == values[i];
    }
  }

  /** The entries for one source cluster, in some order. When every endpoint has an address
      all shared objects are left as they were. */
  method LocaliseSource(src: Source, entries: seq<SharedEntry>, order: seq<nat>) returns (log: seq<seq<seq<Endpoint>>>)
    requires forall i :: 0 <= i < |order| ==> order[i] < |entries|
    requires forall i :: 0 <= i < |entries| ==> Distinct(entries[i].endpoints)
    modifies Objects(entries)
    ensures HaveAddresses(old(AllValues(entries))) ==>
      AllValues(entries) == old(AllValues(entries)) && WrittenInOrder(src, entries, old(AllValues(entries)), order, log)
  {
    log := [];
    ghost var values := AllValues(entries);
    for n := 0 to |order|
      invariant HaveAddresses(values) ==>
        AllValues(entries) == values && WrittenInOrder(src, entries, values, order[..n], log)
    {
      var writes := LocaliseOne(src, entries, order[n]);
      log := log + [writes];
    }
    assert order[..|order|] == order;
  }

  /** The whole loop: each source cluster goes over the entries in an order of its own. The
      shared entries that the dependents receive afterwards are the ones that were built. */
  method LocaliseAll(sources: seq<Source>, entries: seq<SharedEntry>, orders: seq<seq<nat>>)
    returns (log: seq<seq<seq<seq<Endpoint>>>>)
    requires |orders| == |sources|
    requires forall j, i :: 0 <= j < |orders| && 0 <= i < |orders[j]| ==> orders[j][i] < |entries|
    requires forall i :: 0 <= i < |entries| ==> Distinct(entries[i].endpoints)
    modifies Objects(entries)
    ensures |log| == |sources|
    ensures HaveAddresses(old(AllValues(entries))) ==>
      && AllValues(entries) == old(AllValues(entries))
      && forall j :: 0 <= j < |sources| ==> WrittenInOrder(sources[j], entries, old(AllValues(entries)), orders[j], log[j])
  {
    log := [];
    ghost var values := AllValues(entries);
    for n := 0 to |sources|
      invariant |log| == n
      invariant HaveAddresses(values) ==> AllValues(entries) == values
      invariant HaveAddresses(values) ==>
        forall j :: 0 <= j < n ==> WrittenInOrder(sources[j], entries, values, orders[j], log[j])
    {
      var writes := LocaliseSource(sources[n], entries, orders[n]);
      log := log + [writes];
    }
  }

  // ----- what a source cluster receives -------------------------------------------------------------

  /** `k` is the only endpoint behind the cluster's ingress, and every endpoint has an address. */
  predicate OneIngress(src: Source, eps: seq<Endpoint>, k: nat) {
    k < |eps| && src.ingress != "" && forall i :: 0 <= i < |eps| ==>
      eps[i].address != "" && (eps[i].address == src.ingress <==> i == k)
  }

  /** The local endpoints that stand for the cluster's ingress endpoint. */
  function LocalEndpoints(src: Source, host: string, ep: Endpoint): seq<Endpoint>
    requires !Stuck(src, host)
  {
    var m := ModeOf(src, host);
    if ChangesInPlace(m) then [Localised(src, host, ep)]
    else if m.InWeighted? then WeightedCopies(src.weighted, ep, src.local.ports)
    else MigratedEndpoints(src.migration, ep)
  }

  function Unlabelled(eps: seq<Endpoint>): seq<Endpoint> {
    seq(|eps|, i requires 0 <= i < |eps| => eps[i].(appType := None))
  }

  lemma {:induction false} NoMatchFrom(src: Source, host: string, eps: seq<Endpoint>, k: nat, written: seq<seq<Endpoint>>)
    requires k <= |eps| && forall i :: k <= i < |eps| ==> !Matches(src, eps[i])
    ensures FromEndpoint(src, host, eps, k, written) == (written, eps)
    decreases |eps| - k
  {
    if k < |eps| {
      NoMatchFrom(src, host, eps, k + 1, written);
    }
  }

  lemma {:induction false} WritesAtIngress(src: Source, host: string, eps: seq<Endpoint>, i: nat, k: nat, written: seq<seq<Endpoint>>)
    requires OneIngress(src, eps, k) && i <= k
    ensures FromEndpoint(src, host, eps, i, written).0 ==
      if Stuck(src, host) then written else written + [View(src, host, eps, k)]
    decreases k - i
  {
    if i < k {
      WritesAtIngress(src, host, eps, i + 1, k, written);
    } else if !Stuck(src, host) {
      NoMatchFrom(src, host, AfterWrite(src, host, eps, k), k + 1, written + [View(src, host, eps, k)]);
    }
  }

  lemma {:induction false} NotMatchingNone(src: Source, eps: seq<Endpoint>)
    requires forall i :: 0 <= i < |eps| ==> !Matches(src, eps[i])
    ensures NotMatching(src, eps) == eps && LastMatching(src, eps) == None
  {
    if eps != [] {
      NotMatchingNone(src, eps[1..]);
      LastMatchingNone(src, eps);
    }
  }

  lemma {:induction false} LastMatchingNone(src: Source, eps: seq<Endpoint>)
    requires forall i :: 0 <= i < |eps| ==> !Matches(src, eps[i])
    ensures LastMatching(src, eps) == None
  {
    if eps != [] {
      LastMatchingNone(src, eps[..|eps| - 1]);
    }
  }

  lemma {:induction false} WeightedViewAt(src: Source, eps: seq<Endpoint>, k: nat)
    requires OneIngress(src, eps, k)
    ensures NotMatching(src, eps) == eps[..k] + eps[k + 1..]
    ensures LastMatching(src, eps) == Some(eps[k])
    decreases |eps|
  {
    var n := |eps| - 1;
    assert eps == eps[..n] + [eps[n]];
    NotMatchingAppend(src, eps[..n], eps[n]);
    if k == n {
      NotMatchingNone(src, eps[..n]);
    } else {
      WeightedViewAt(src, eps[..n], k);
      assert eps[..k] + eps[k + 1..] == eps[..n][..k] + eps[..n][k + 1..] + [eps[n]];
    }
  }

  lemma {:induction false} MigrationViewNone(src: Source, eps: seq<Endpoint>)
    requires src.migration.deployment.Some? && src.migration.rollout.Some?
    requires forall i :: 0 <= i < |eps| ==> eps[i].address != src.ingress
    ensures MigrationView(src, eps) == Unlabelled(eps)
  {
    if eps != [] {
      MigrationViewNone(src, eps[..|eps| - 1]);
    }
  }

  lemma {:induction false} MigrationViewAt(src: Source, eps: seq<Endpoint>, k: nat)
    requires src.migration.deployment.Some? && src.migration.rollout.Some?
    requires OneIngress(src, eps, k)
    ensures MigrationView(src, eps) ==
      Unlabelled(eps[..k]) + MigratedEndpoints(src.migration, eps[k]) + Unlabelled(eps[k + 1..])
    decreases |eps|
  {
    var n := |eps| - 1;
    if k == n {
      MigrationViewNone(src, eps[..n]);
    } else {
      MigrationViewAt(src, eps[..n], k);
      assert eps[..n][..k] == eps[..k] && eps[..n][k] == eps[k];
      assert Unlabelled(eps[k + 1..]) == Unlabelled(eps[..n][k + 1..]) + [eps[n].(appType := None)];
    }
  }

  /** The localised entry: the ingress endpoint has made way for the local ones; all others are
      there, in order and still at their remote addresses. */
  function LocalisedWrite(src: Source, host: string, eps: seq<Endpoint>, k: nat): seq<seq<Endpoint>>
    requires k < |eps|
  {
    if Stuck(src, host) then []
    else
      var m, local := ModeOf(src, host), LocalEndpoints(src, host, eps[k]);
      [if m.InWeighted? then eps[..k] + eps[k + 1..] + local
       else if m.InMigration? then Unlabelled(eps[..k]) + local + Unlabelled(eps[k + 1..])
       else eps[..k] + local + eps[k + 1..]]
  }

  /** Main result: a source cluster is written exactly one localised entry, none while a
      migrating service is unknown. */
  lemma LocalisedEntry(src: Source, host: string, eps: seq<Endpoint>, k: nat)
    requires OneIngress(src, eps, k)
    ensures Entry(src, host, eps).0 == PlainWrite(src, eps) + LocalisedWrite(src, host, eps, k)
  {
    WritesAtIngress(src, host, eps, 0, k, PlainWrite(src, eps));
    if !Stuck(src, host) {
      var m := ModeOf(src, host);
      if m.InWeighted? {
        WeightedViewAt(src, eps, k);
      } else if m.InMigration? {
        MigrationViewAt(src, eps, k);
      } else {
        var x := Localised(src, host, eps[k]);
        assert eps[k := x] == eps[..k] + [x] + eps[k + 1..];
      }
    }
  }

  // ----- what the local endpoints are ------------------------------------------------------------------

  /** The plain write comes first, and an entry without the ingress has no other. */
  lemma PlainWriteFirst(src: Source, host: string, eps: seq<Endpoint>)
    requires src.ingress != "" && forall i :: 0 <= i < |eps| ==> eps[i].address != "" && eps[i].address != src.ingress
    ensures Entry(src, host, eps).0 == if eps == [] || (src.deleteEntry && !src.migrating) then [eps] else []
  {
    NoMatchFrom(src, host, eps, 0, PlainWrite(src, eps));
  }

  /** An in-place write moves the ingress endpoint to one service and keeps everything else:
      the canary, preview or active service when the host and the source call for it, the
      ordinary one otherwise. */
  lemma InPlaceWrite(src: Source, host: string, eps: seq<Endpoint>, k: nat, s: Service)
    requires OneIngress(src, eps, k)
    requires
      match src.blueGreen
      case Some(bg) =>
        if "preview." <= host && bg.preview.Some? then s == bg.preview.value
        else if bg.active.Some? then s == bg.active.value
        else s == Service(src.ingress, eps[k].ports)
      case None =>
        if src.canaryFqdn.Some? && "canary" <= host then s == Service(src.canaryFqdn.value, src.local.ports)
        else |src.weighted| <= 1 && !src.migrating && s == src.local
    ensures
      var writes := Entry(src, host, eps).0;
      && |writes| == (if src.deleteEntry && !src.migrating then 2 else 1)
      && (|writes| == 2 ==> writes[0] == eps)
      && writes[|writes| - 1] == eps[k := eps[k].(address := s.fqdn, ports := s.ports)]
  {
    LocalisedEntry(src, host, eps, k);
    assert eps[k := eps[k].(address := s.fqdn, ports := s.ports)] ==
      eps[..k] + [eps[k].(address := s.fqdn, ports := s.ports)] + eps[k + 1..];
  }

  lemma {:induction false} CopyOfEach(services: seq<WeightedService>, ep: Endpoint, ports: Ports, e: Endpoint)
    ensures e in WeightedCopies(services, ep, ports) <==>
      exists i :: 0 <= i < |services| && services[i].weight > 0 &&
        e == Endpoint(services[i].fqdn, ports, ep.locality, services[i].weight, ep.appType)
  {
    if services != [] {
      CopyOfEach(services[1..], ep, ports, e);
      assert services == [services[0]] + services[1..];
    }
  }

  /** Whichever endpoints match, the weighted copies take the place of all of them, and the last
      one is their model. */
  lemma {:induction false} WeightedViewExactly(src: Source, eps: seq<Endpoint>, k: nat, e: Endpoint)
    requires k < |eps| && (eps[k].address == src.ingress || eps[k].address == "")
    requires forall i :: k < i < |eps| ==> eps[i].address != src.ingress && eps[i].address != ""
    ensures e in WeightedView(src, eps) <==>
      || (e in eps && e.address != src.ingress && e.address != "")
      || exists i :: 0 <= i < |src.weighted| && src.weighted[i].weight > 0 &&
           e == Endpoint(src.weighted[i].fqdn, src.local.ports, eps[k].locality, src.weighted[i].weight, eps[k].appType)
  {
    LastMatchingIs(src, eps, k);
    NotMatchingMembers(src, eps, e);
    CopyOfEach(src.weighted, eps[k], src.local.ports, e);
  }

  lemma {:induction false} LastMatchingIs(src: Source, eps: seq<Endpoint>, k: nat)
    requires k < |eps| && Matches(src, eps[k]) && forall i :: k < i < |eps| ==> !Matches(src, eps[i])
    ensures LastMatching(src, eps) == Some(eps[k])
  {
    if k < |eps| - 1 {
      LastMatchingIs(src, eps[..|eps| - 1], k);
    }
  }

  lemma {:induction false} NotMatchingMembers(src: Source, eps: seq<Endpoint>, e: Endpoint)
    ensures e in NotMatching(src, eps) <==> e in eps && !Matches(src, e)
  {
    if eps != [] {
      NotMatchingMembers(src, eps[1..], e);
      assert eps == [eps[0]] + eps[1..];
    }
  }

  /** With several weighted services the last write has an endpoint for each of positive
      weight, at its name and with its weight, and otherwise the endpoints of other clusters. */
  lemma WeightedWrite(src: Source, host: string, eps: seq<Endpoint>, k: nat, e: Endpoint)
    requires OneIngress(src, eps, k)
    requires src.blueGreen.None? && (src.canaryFqdn.None? || !("canary" <= host)) && |src.weighted| > 1
    ensures
      var writes := Entry(src, host, eps).0;
      && writes != []
      && (e in writes[|writes| - 1] <==>
          || (e in eps && e.address != src.ingress)
          || exists i :: 0 <= i < |src.weighted| && src.weighted[i].weight > 0 &&
               e == Endpoint(src.weighted[i].fqdn, src.local.ports, eps[k].locality, src.weighted[i].weight, eps[k].appType))
  {
    LocalisedEntry(src, host, eps, k);
    CopyOfEach(src.weighted, eps[k], src.local.ports, e);
    assert eps == eps[..k] + [eps[k]] + eps[k + 1..];
  }

  lemma OthersUnlabelled(eps: seq<Endpoint>, k: nat, e: Endpoint)
    requires k < |eps|
    ensures e in Unlabelled(eps[..k]) + Unlabelled(eps[k + 1..]) <==>
      exists i :: 0 <= i < |eps| && i != k && e == Endpoint(eps[i].address, eps[i].ports, eps[i].locality, eps[i].weight, None)
  {
    var others := Unlabelled(eps[..k]) + Unlabelled(eps[k + 1..]);
    forall i | 0 <= i < |eps| && i != k
      ensures eps[i].(appType := None) in others
    {
      assert others[if i < k then i else i - 1] == eps[i].(appType := None);
    }
    if e in others {
      var j :| 0 <= j < |others| && others[j] == e;
      assert e == eps[if j < k then j else j + 1].(appType := None);
    }
  }

  /** While a cluster migrates, the one write has the service of each workload that runs there
      and was not deleted, and otherwise the unlabelled endpoints of other clusters. */
  lemma MigrationWrite(src: Source, host: string, eps: seq<Endpoint>, k: nat, e: Endpoint)
    requires OneIngress(src, eps, k)
    requires src.blueGreen.None? && (src.canaryFqdn.None? || !("canary" <= host)) && |src.weighted| <= 1 && src.migrating
    requires src.migration.deployment.Some? && src.migration.rollout.Some?
    ensures
      var m := src.migration;
      var writes := Entry(src, host, eps).0;
      && |writes| == 1
      && (e in writes[0] <==>
          || (exists i :: 0 <= i < |eps| && i != k && e == Endpoint(eps[i].address, eps[i].ports, eps[i].locality, eps[i].weight, None))
          || (Deployment in m.present && m.deleted != Some(Deployment) &&
              e == Endpoint(m.deployment.value.fqdn, m.deployment.value.ports, eps[k].locality, 0, Some(Deployment)))
          || (Rollout in m.present && m.deleted != Some(Rollout) &&
              e == Endpoint(m.rollout.value.fqdn, m.rollout.value.ports, eps[k].locality, 0, Some(Rollout))))
  {
    LocalisedEntry(src, host, eps, k);
    OthersUnlabelled(eps, k, e);
  }

  /** While a service of the migration is not known, a cluster that receives traffic is left alone. */
  lemma UnknownServiceWritesNothing(src: Source, host: string, eps: seq<Endpoint>, k: nat)
    requires OneIngress(src, eps, k)
    requires src.blueGreen.None? && (src.canaryFqdn.None? || !("canary" <= host)) && |src.weighted| <= 1 && src.migrating
    ensures Entry(src, host, eps).0 == [] <==> src.migration.deployment.None? || src.migration.rollout.None?
  {
    LocalisedEntry(src, host, eps, k);
  }

  /** A cluster's services have names of their own. */
  predicate ServicesAreLocal(src: Source) {
    && src.local.fqdn != src.ingress
    && (src.canaryFqdn.Some? ==> src.canaryFqdn.value != src.ingress)
    && (forall i :: 0 <= i < |src.weighted| ==> src.weighted[i].fqdn != src.ingress)
    && (src.blueGreen.Some? && src.blueGreen.value.active.Some? ==> src.blueGreen.value.active.value.fqdn != src.ingress)
    && (src.blueGreen.Some? && src.blueGreen.value.preview.Some? ==> src.blueGreen.value.preview.value.fqdn != src.ingress)
    && (src.migration.deployment.Some? ==> src.migration.deployment.value.fqdn != src.ingress)
    && (src.migration.rollout.Some? ==> src.migration.rollout.value.fqdn != src.ingress)
  }

  lemma {:induction false} WeightedAddresses(services: seq<WeightedService>, ep: Endpoint, ports: Ports, ingress: string)
    requires forall i :: 0 <= i < |services| ==> services[i].fqdn != ingress
    ensures forall e :: e in WeightedCopies(services, ep, ports) ==> e.address != ingress
  {
    if services != [] {
      WeightedAddresses(services[1..], ep, ports, ingress);
    }
  }

  /** No local endpoint keeps the ingress address, except when a blue/green rollout has
      neither the wanted nor the active service: then the entry goes out unchanged. */
  lemma LocalEndpointsAreLocal(src: Source, host: string, ep: Endpoint)
    requires !Stuck(src, host) && ServicesAreLocal(src) && ep.address == src.ingress
    ensures (forall e :: e in LocalEndpoints(src, host, ep) ==> e.address != src.ingress) <==>
      (src.blueGreen.Some? ==>
        src.blueGreen.value.active.Some? || (PREVIEW_PREFIX <= host && src.blueGreen.value.preview.Some?))
  {
    WeightedAddresses(src.weighted, ep, src.local.ports, src.ingress);
    if src.blueGreen.Some? {
      assert Localised(src, host, ep) in LocalEndpoints(src, host, ep);
    }
  }
}
