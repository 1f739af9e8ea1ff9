/** Writing a service entry: the diff against the stored one, and the guard that holds back
    destructive updates while the control plane boots. */
module UpdateGuard {
  import opened Mesh
  import opened Prelude

  datatype Spec = Spec(hosts: seq<string>, endpoints: seq<Endpoint>, exportTo: seq<string>)

  /** The address of an endpoint whose real address is not known. */
  const DUMMY := "dummy.admiral.global"

  // ----- the diff ----------------------------------------------------------------------------------

  /** The endpoints by address, the last of an address winning. */
  function ByAddress(endpoints: seq<Endpoint>): map<string, Endpoint> {
    if endpoints == [] then map[]
    else
      var n := |endpoints| - 1;
      ByAddress(endpoints[..n])[endpoints[n].address := endpoints[n]]
  }

  predicate HasAddress(endpoints: seq<Endpoint>, address: string) {
    exists i :: 0 <= i < |endpoints| && endpoints[i].address == address
  }

  predicate EndpointAltered(before: map<string, Endpoint>, after: seq<Endpoint>) {
    exists i :: 0 <= i < |after| && after[i].address in before && before[after[i].address] != after[i]
  }

  predicate EndpointRemoved(before: map<string, Endpoint>, after: seq<Endpoint>) {
    exists a :: a in before && !HasAddress(after, a)
  }

  predicate NamespaceRemoved(before: seq<string>, after: seq<string>) {
    exists i :: 0 <= i < |before| && before[i] !in after
  }

  predicate Destructive(before: Spec, after: Spec, exported: bool) {
    || EndpointAltered(ByAddress(before.endpoints), after.endpoints)
    || EndpointRemoved(ByAddress(before.endpoints), after.endpoints)
    || (exported && NamespaceRemoved(before.exportTo, after.exportTo))
  }

  method EndpointsDiffer(before: seq<Endpoint>, after: seq<Endpoint>) returns (destructive: bool)
    ensures destructive <==> EndpointAltered(ByAddress(before), after) || EndpointRemoved(ByAddress(before), after)
  {
    var known: map<string, Endpoint> := map[];
    for i := 0 to |before|
      invariant known == ByAddress(before[..i])
    {
      assert before[..i + 1][..i] == before[..i];
      known := known[before[i].address := before[i]];
    }
    assert before[..|before|] == before;
    destructive := false;
    var found: set<string> := {};
    for i := 0 to |after|
      invariant destructive <==> EndpointAltered(known, after[..i])
      invariant forall a :: a in found <==> a in known && HasAddress(after[..i], a)
    {
      AddressesGrow(after, i);
      AlteredGrows(known, after, i);
      if after[i].address in known {
        found := found + {after[i].address};
        if known[after[i].address] != after[i] {
          destructive := true;
        }
      }
    }
    assert after[..|after|] == after;
    var left := known.Keys;
    while left != {}
      invariant left <= known.Keys
      invariant destructive <==>
        EndpointAltered(known, after) || exists a :: a in known && a !in left && !HasAddress(after, a)
    {
      var a :| a in left;
      if a !in found {
        destructive := true;
      }
      left := left - {a};
    }
  }

  lemma AddressesGrow(endpoints: seq<Endpoint>, n: nat)
    requires n < |endpoints|
    ensures forall a ::
      HasAddress(endpoints[..n + 1], a) <==> HasAddress(endpoints[..n], a) || endpoints[n].address == a
  {
    forall a | HasAddress(endpoints[..n], a)
      ensures HasAddress(endpoints[..n + 1], a)
    {
      var i :| 0 <= i < n && endpoints[..n][i].address == a;
      assert endpoints[..n + 1][i].address == a;
    }
    assert endpoints[..n + 1][n] == endpoints[n];
    assert forall i :: 0 <= i < n ==> endpoints[..n + 1][i] == endpoints[..n][i];
  }

  lemma AlteredGrows(known: map<string, Endpoint>, after: seq<Endpoint>, n: nat)
    requires n < |after|
    ensures EndpointAltered(known, after[..n + 1]) <==>
      EndpointAltered(known, after[..n]) || (after[n].address in known && known[after[n].address] != after[n])
  {
    assert after[..n + 1][n] == after[n];
    assert forall i :: 0 <= i < n ==> after[..n + 1][i] == after[..n][i];
  }

  method NamespacesDiffer(before: seq<string>, after: seq<string>) returns (destructive: bool)
    ensures destructive <==> NamespaceRemoved(before, after)
  {
    var known: set<string> := {};
    for i := 0 to |before|
      invariant known == Elements(before[..i])
    {
      assert before[..i + 1] == before[..i] + [before[i]];
      known := known + {before[i]};
    }
    assert before[..|before|] == before;
    for i := 0 to |after|
      invariant known == Elements(before) - Elements(after[..i])
    {
      assert after[..i + 1] == after[..i] + [after[i]];
      if after[i] in known {
        known := known - {after[i]};
      }
    }
    assert after[..|after|] == after;
    destructive := known != {};
    if !destructive {
      forall i | 0 <= i < |before|
        ensures before[i] in after
      {
        assert before[i] in Elements(before) && before[i] in Elements(after);
      }
    }
  }

  /** `exported` says that the new entry's first host takes part in namespace export. */
  method GetServiceEntryDiff(after: Spec, before: Spec, exported: bool) returns (destructive: bool)
    ensures destructive <==> Destructive(before, after, exported)
  {
    destructive := EndpointsDiffer(before.endpoints, after.endpoints);
    if exported {
      var removed := NamespacesDiffer(before.exportTo, after.exportTo);
      if removed {
        destructive := true;
      }
    }
  }

  // ----- what the diff protects ----------------------------------------------------------------------

  /** No two different endpoints share an address. */
  ghost predicate NoClash(endpoints: seq<Endpoint>) {
    forall e, f :: e in endpoints && f in endpoints && e.address == f.address ==> e == f
  }

  lemma {:induction false} ByAddressSound(endpoints: seq<Endpoint>)
    ensures forall a :: a in ByAddress(endpoints) <==> HasAddress(endpoints, a)
    ensures forall a :: a in ByAddress(endpoints) ==>
              ByAddress(endpoints)[a] in endpoints && ByAddress(endpoints)[a].address == a
  {
    if endpoints != [] {
      var n := |endpoints| - 1;
      ByAddressSound(endpoints[..n]);
      AddressesGrow(endpoints, n);
      assert endpoints[..n + 1] == endpoints;
    }
  }

  lemma ByAddressFinds(endpoints: seq<Endpoint>, e: Endpoint)
    requires NoClash(endpoints) && e in endpoints
    ensures e.address in ByAddress(endpoints) && ByAddress(endpoints)[e.address] == e
  {
    ByAddressSound(endpoints);
    assert HasAddress(endpoints, e.address);
  }

  /** No later endpoint has the address of endpoint `i`. */
  predicate LastOfAddress(endpoints: seq<Endpoint>, i: int) {
    0 <= i < |endpoints| && forall j :: i < j < |endpoints| ==> endpoints[j].address != endpoints[i].address
  }

  lemma {:induction false} ByAddressAt(endpoints: seq<Endpoint>, a: string) returns (i: int)
    ensures a in ByAddress(endpoints) ==> LastOfAddress(endpoints, i) && endpoints[i].address == a && ByAddress(endpoints)[a] == endpoints[i]
    ensures a !in ByAddress(endpoints) ==> forall j :: 0 <= j < |endpoints| ==> endpoints[j].address != a
  {
    i := 0;
    if endpoints != [] {
      var n := |endpoints| - 1;
      i := ByAddressAt(endpoints[..n], a);
      if endpoints[n].address == a {
        i := n;
      }
    }
  }

  /** Whether an update is destructive, for any lists: the last endpoint of some old address is
      missing or different in the new list, or an exported namespace is lost. */
  lemma DestructiveExactly(before: Spec, after: Spec, exported: bool)
    ensures Destructive(before, after, exported) <==>
      || (exists i :: LastOfAddress(before.endpoints, i) && Lost(before.endpoints[i], after.endpoints))
      || (exported && exists ns :: ns in before.exportTo && ns !in after.exportTo)
  {
    var known, was := ByAddress(before.endpoints), before.endpoints;
    LostByAddress(was, after.endpoints);
    if a :| a in known && Lost(known[a], after.endpoints) {
      var i := ByAddressAt(was, a);
      assert LastOfAddress(was, i) && Lost(was[i], after.endpoints);
    }
    if i :| LastOfAddress(was, i) && Lost(was[i], after.endpoints) {
      var k := ByAddressAt(was, was[i].address);
      assert k == i;
    }
    assert NamespaceRemoved(before.exportTo, after.exportTo) <==> exists ns :: ns in before.exportTo && ns !in after.exportTo;
  }

  /** The endpoint's address is gone, or another endpoint has it. */
  predicate Lost(e: Endpoint, after: seq<Endpoint>) {
    || (forall j :: 0 <= j < |after| ==> after[j].address != e.address)
    || exists j :: 0 <= j < |after| && after[j].address == e.address && after[j] != e
  }

  lemma LostByAddress(before: seq<Endpoint>, after: seq<Endpoint>)
    ensures EndpointAltered(ByAddress(before), after) || EndpointRemoved(ByAddress(before), after) <==>
            exists a :: a in ByAddress(before) && Lost(ByAddress(before)[a], after)
  {
    ByAddressSound(before);
    var known := ByAddress(before);
    forall a | a in known
      ensures Lost(known[a], after) <==>
        !HasAddress(after, a) || exists j :: 0 <= j < |after| && after[j].address == a && after[j] != known[a]
    {
    }
    if EndpointAltered(known, after) {
      var j :| 0 <= j < |after| && after[j].address in known && known[after[j].address] != after[j];
      assert Lost(known[after[j].address], after);
    }
  }

  ghost predicate Keeps(before: Spec, after: Spec) {
    && (forall e :: e in before.endpoints ==> e in after.endpoints)
    && (forall e, f :: e in before.endpoints && f in after.endpoints && e.address == f.address ==> e == f)
  }

  /** When no two different old endpoints share an address, an update is not destructive
      exactly when every old endpoint reappears, every new endpoint at an old address is the
      old one, and no exported namespace is lost. */
  lemma NotDestructiveMeansKept(before: Spec, after: Spec, exported: bool)
    requires NoClash(before.endpoints)
    ensures !Destructive(before, after, exported) <==>
      Keeps(before, after) && (exported ==> forall ns :: ns in before.exportTo ==> ns in after.exportTo)
  {
    var known := ByAddress(before.endpoints);
    ByAddressSound(before.endpoints);
    forall e | e in before.endpoints
      ensures e.address in known && known[e.address] == e
    {
      ByAddressFinds(before.endpoints, e);
    }
    if !EndpointAltered(known, after.endpoints) && !EndpointRemoved(known, after.endpoints) {
      forall e | e in before.endpoints
        ensures e in after.endpoints
      {
        assert HasAddress(after.endpoints, e.address);
      }
    }
    if Keeps(before, after) {
      forall a | a in known
        ensures HasAddress(after.endpoints, a)
      {
        assert known[a] in after.endpoints;
      }
      assert forall i :: 0 <= i < |after.endpoints| ==> after.endpoints[i] in after.endpoints;
    }
    assert forall i :: 0 <= i < |before.exportTo| ==> before.exportTo[i] in before.exportTo;
  }

  /** The endpoints the old map holds. */
  function Survivors(endpoints: seq<Endpoint>, m: map<string, Endpoint>): seq<Endpoint> {
    if endpoints == [] then []
    else
      var n := |endpoints| - 1;
      var e := endpoints[n];
      Survivors(endpoints[..n], m) + if e.address in m && m[e.address] == e then [e] else []
  }

  lemma {:induction false} SurvivorsAre(endpoints: seq<Endpoint>, m: map<string, Endpoint>)
    ensures forall e :: e in Survivors(endpoints, m) <==> e in endpoints && e.address in m && m[e.address] == e
  {
    if endpoints != [] {
      var n := |endpoints| - 1;
      SurvivorsAre(endpoints[..n], m);
      assert endpoints == endpoints[..n] + [endpoints[n]];
    }
  }

  ghost predicate Protected(before: Spec) {
    forall after: Spec :: !Destructive(before, after, true) ==> Keeps(before, after)
  }

  /** The diff protects an entry's endpoints against every update exactly when no two
      different endpoints of the entry share an address. */
  lemma ProtectedExactly(before: Spec)
    ensures Protected(before) <==> NoClash(before.endpoints)
  {
    if NoClash(before.endpoints) {
      forall after: Spec | !Destructive(before, after, true)
        ensures Keeps(before, after)
      {
        NotDestructiveMeansKept(before, after, true);
      }
    } else {
      ClashLosesEndpoint(before);
    }
  }

  lemma ClashLosesEndpoint(before: Spec)
    requires !NoClash(before.endpoints)
    ensures !Protected(before)
  {
    var known := ByAddress(before.endpoints);
    var after := before.(endpoints := Survivors(before.endpoints, known));
    ByAddressSound(before.endpoints);
    SurvivorsAre(before.endpoints, known);
    forall a | a in known
      ensures HasAddress(after.endpoints, a)
    {
      assert known[a] in after.endpoints;
    }
    assert forall i :: 0 <= i < |after.endpoints| ==> after.endpoints[i] in after.endpoints;
    assert !Destructive(before, after, true);
    var e, f :| e in before.endpoints && f in before.endpoints && e.address == f.address && e != f;
    assert e !in after.endpoints || f !in after.endpoints;
    assert !Keeps(before, after);
  }

  // ----- one write -------------------------------------------------------------------------------------

  /** An object with its resource version; 0 is the blank version of an unsent object. */
  datatype Object = Object(spec: Spec, version: nat)

  /** What goes wrong on the way: lost requests, and whether an update with a blank version is
      answered with a conflict rather than another error. */
  datatype Network = Network(createLost: bool, getLost: bool, updateLost: bool, lostRetries: set<nat>, blankConflicts: bool)

  /** `exist` is the caller's copy of the stored object. */
  datatype Call = Call(spec: Spec, exist: Option<Object>, boot: bool, net: Network)

  const RETRIES := 5

  function WithoutDummies(endpoints: seq<Endpoint>): seq<Endpoint> {
    if endpoints == [] then []
    else
      var n := |endpoints| - 1;
      WithoutDummies(endpoints[..n]) + if endpoints[n].address == DUMMY then [] else [endpoints[n]]
  }

  method ValidateEndpoints(endpoints: seq<Endpoint>) returns (valid: bool, kept: seq<Endpoint>)
    ensures kept == WithoutDummies(endpoints)
    ensures valid <==> !HasAddress(endpoints, DUMMY)
  {
    valid, kept := true, [];
    for i := 0 to |endpoints|
      invariant kept == WithoutDummies(endpoints[..i])
      invariant valid <==> !HasAddress(endpoints[..i], DUMMY)
    {
      assert endpoints[..i + 1][..i] == endpoints[..i];
      AddressesGrow(endpoints, i);
      if endpoints[i].address == DUMMY {
        valid := false;
      } else {
        kept := kept + [endpoints[i]];
      }
    }
    assert endpoints[..|endpoints|] == endpoints;
  }

  predicate SomeRetryArrives(net: Network) {
    exists i :: 0 <= i < RETRIES && i !in net.lostRetries
  }

  predicate Exported(spec: Spec, enabled: set<string>) {
    spec.hosts != [] && spec.hosts[0] in enabled
  }

  /** The stored object and whether an error is returned, for an update from `exist`. */
  function AfterUpdate(stored: Option<Object>, exist: Object, spec: Spec, c: Call, enabled: set<string>): (Option<Object>, bool) {
    if c.boot && Destructive(exist.spec, spec, Exported(spec, enabled)) then (stored, false)
    else if c.net.updateLost || stored.None? then (stored, true)
    else if exist.version == 0 && !c.net.blankConflicts then (stored, true)
    else if exist.version == stored.value.version && exist.version != 0 then
      (Some(Object(spec, stored.value.version + 1)), false)
    else if SomeRetryArrives(c.net) then (Some(Object(spec, stored.value.version + 1)), false)
    else (stored, true)
  }

  function AfterCall(stored: Option<Object>, c: Call, enabled: set<string>): (Option<Object>, bool) {
    var spec := c.spec.(endpoints := WithoutDummies(c.spec.endpoints));
    var valid := !HasAddress(c.spec.endpoints, DUMMY);
    if c.exist.Some? && c.exist.value.spec.hosts != [] then
      if valid then AfterUpdate(stored, c.exist.value, spec, c, enabled) else (stored, false)
    else if spec.endpoints == [] then (stored, false)
    else if c.net.createLost then (stored, true)
    else if stored.None? then (Some(Object(spec, 1)), false)
    else if !valid then (stored, c.net.getLost)
    else AfterUpdate(stored, if c.net.getLost then Object(spec, 0) else stored.value, spec, c, enabled)
  }

  datatype Answer = Ok | AlreadyExists | Conflict | OtherError

  /** One named object in the API server of a cluster. */
  class ServiceEntryClient {
    var stored: Option<Object>
    const enabled: set<string>

    constructor (enabled: set<string>)
      ensures stored == None && this.enabled == enabled
    {
      stored, this.enabled := None, enabled;
    }

    method Create(spec: Spec, net: Network) returns (answer: Answer)
      modifies this
      ensures answer == if net.createLost then OtherError else if old(stored).Some? then AlreadyExists else Ok
      ensures stored == if answer == Ok then Some(Object(spec, 1)) else old(stored)
    {
      if net.createLost {
        return OtherError;
      }
      if stored.Some? {
        return AlreadyExists;
      }
      stored := Some(Object(spec, 1));
      answer := Ok;
    }

    method Update(o: Object, net: Network) returns (answer: Answer)
      modifies this
      ensures answer ==
        if net.updateLost || old(stored).None? then OtherError
        else if o.version == 0 then if net.blankConflicts then Conflict else OtherError
        else if o.version == old(stored).value.version then Ok
        else Conflict
      ensures answer == Ok ==> stored == Some(Object(o.spec, old(stored).value.version + 1))
      ensures answer != Ok ==> stored == old(stored)
    {
      if net.updateLost || stored.None? {
        return OtherError;
      }
      if o.version == 0 {
        return if net.blankConflicts then Conflict else OtherError;
      }
      if o.version != stored.value.version {
        return Conflict;
      }
      stored := Some(Object(o.spec, o.version + 1));
      answer := Ok;
    }

    /** Reads the object again and overwrites it, without another look at the diff. */
    method RetryUpdating(spec: Spec, net: Network) returns (failed: bool)
      requires stored.Some?
      modifies this
      ensures failed <==> !SomeRetryArrives(net)
      ensures stored == if failed then old(stored) else Some(Object(spec, old(stored).value.version + 1))
    {
      for i := 0 to RETRIES
        invariant stored == old(stored)
        invariant forall k :: 0 <= k < i ==> k in net.lostRetries
      {
        if i !in net.lostRetries {
          var latest := stored.value;
          stored := Some(Object(spec, latest.version + 1));
          return false;
        }
      }
      failed := true;
    }

    method GuardedUpdate(exist: Object, spec: Spec, c: Call) returns (failed: bool)
      modifies this
      ensures (stored, failed) == AfterUpdate(old(stored), exist, spec, c, enabled)
    {
      var destructive := GetServiceEntryDiff(spec, exist.spec, Exported(spec, enabled));
      if c.boot && destructive {
        return false;
      }
      var answer := Update(Object(spec, exist.version), c.net);
      failed := answer != Ok;
      if answer == Conflict {
        failed := RetryUpdating(spec, c.net);
      }
    }

    method AddUpdateServiceEntry(c: Call) returns (failed: bool)
      modifies this
      ensures (stored, failed) == AfterCall(old(stored), c, enabled)
    {
      var valid, endpoints := ValidateEndpoints(c.spec.endpoints);
      var spec := c.spec.(endpoints := endpoints);
      var isNew := c.exist.None? || c.exist.value.spec.hosts == [];
      var exist := Object(spec, 0);
      failed := false;
      if isNew {
        if endpoints == [] {
          return false;
        }
        var answer := Create(spec, c.net);
        if answer != AlreadyExists {
          return answer != Ok;
        }
        if c.net.getLost {
          failed := true;
        } else {
          exist := stored.value;
        }
      } else {
        exist := c.exist.value;
      }
      if valid {
        failed := GuardedUpdate(exist, spec, c);
      }
    }
  }

  // ----- the boot window ----------------------------------------------------------------------------------

  /** The caller's copy is the stored object, and a create that meets an object reads it. */
  predicate ConflictFree(stored: Option<Object>, c: Call) {
    && (c.exist.Some? && c.exist.value.spec.hosts != [] ==> stored == c.exist)
    && (stored.Some? ==> stored.value.version != 0)
    && !(c.net.getLost && c.net.blankConflicts)
  }

  ghost predicate Sound(stored: Option<Object>) {
    stored.Some? ==> stored.value.version != 0 && NoClash(stored.value.spec.endpoints)
  }

  /** No endpoint stored before is removed or altered. */
  ghost predicate PreservesEndpoints(before: Option<Object>, after: Option<Object>) {
    before.Some? ==> after.Some? && Keeps(before.value.spec, after.value.spec)
  }

  /** No namespace exported before is missing. */
  ghost predicate PreservesExports(before: Option<Object>, after: Option<Object>) {
    before.Some? ==> after.Some? && forall ns :: ns in before.value.spec.exportTo ==> ns in after.value.spec.exportTo
  }

  lemma {:induction false} WithoutDummiesMembers(endpoints: seq<Endpoint>)
    ensures forall e :: e in WithoutDummies(endpoints) <==> e in endpoints && e.address != DUMMY
  {
    if endpoints != [] {
      var n := |endpoints| - 1;
      WithoutDummiesMembers(endpoints[..n]);
      assert endpoints == endpoints[..n] + [endpoints[n]];
    }
  }

  /** One call in the boot window: endpoints are safe whether or not the submission's host
      takes part in namespace export, exported namespaces when it does. */
  lemma CallPreserves(stored: Option<Object>, c: Call, enabled: set<string>)
    requires Sound(stored) && ConflictFree(stored, c) && NoClash(c.spec.endpoints) && c.boot
    ensures Sound(AfterCall(stored, c, enabled).0)
    ensures PreservesEndpoints(stored, AfterCall(stored, c, enabled).0)
    ensures Exported(c.spec, enabled) ==> PreservesExports(stored, AfterCall(stored, c, enabled).0)
  {
    var spec := c.spec.(endpoints := WithoutDummies(c.spec.endpoints));
    WithoutDummiesMembers(c.spec.endpoints);
    if stored.Some? {
      NotDestructiveMeansKept(stored.value.spec, spec, Exported(spec, enabled));
    }
  }

  function AfterCalls(stored: Option<Object>, cs: seq<Call>, enabled: set<string>): Option<Object> {
    if cs == [] then stored
    else AfterCall(AfterCalls(stored, cs[..|cs| - 1], enabled), cs[|cs| - 1], enabled).0
  }

  ghost predicate BootRun(stored: Option<Object>, cs: seq<Call>, enabled: set<string>) {
    forall k :: 0 <= k < |cs| ==>
      cs[k].boot && NoClash(cs[k].spec.endpoints) && ConflictFree(AfterCalls(stored, cs[..k], enabled), cs[k])
  }

  predicate AllExported(cs: seq<Call>, enabled: set<string>) {
    forall k :: 0 <= k < |cs| ==> Exported(cs[k].spec, enabled)
  }

  lemma PreservesTransitive(a: Option<Object>, b: Option<Object>, c: Option<Object>)
    requires PreservesEndpoints(a, b) && PreservesEndpoints(b, c)
    ensures PreservesEndpoints(a, c)
    ensures PreservesExports(a, b) && PreservesExports(b, c) ==> PreservesExports(a, c)
  {
  }

  /** Over every conflict-free run of the boot window no endpoint is ever removed or altered,
      whatever requests are lost; nor is an exported namespace, when the hosts of all
      submissions take part in namespace export. */
  lemma {:induction false} BootWindowPreserves(stored: Option<Object>, cs: seq<Call>, enabled: set<string>)
    requires Sound(stored) && BootRun(stored, cs, enabled)
    ensures Sound(AfterCalls(stored, cs, enabled))
    ensures PreservesEndpoints(stored, AfterCalls(stored, cs, enabled))
    ensures AllExported(cs, enabled) ==> PreservesExports(stored, AfterCalls(stored, cs, enabled))
  {
    if cs != [] {
      var n := |cs| - 1;
      forall k | 0 <= k < n
        ensures cs[..n][..k] == cs[..k]
      {
      }
      BootWindowPreserves(stored, cs[..n], enabled);
      CallPreserves(AfterCalls(stored, cs[..n], enabled), cs[n], enabled);
      PreservesTransitive(stored, AfterCalls(stored, cs[..n], enabled), AfterCalls(stored, cs, enabled));
    }
  }

  /** A call on the current object without lost requests writes the submission exactly when
      its endpoints are all known and the guard does not hold it back. */
  lemma CurrentCallWritesExactly(stored: Object, c: Call, enabled: set<string>)
    requires c.exist == Some(stored) && stored.spec.hosts != [] && stored.version != 0 && !c.net.updateLost
    ensures
      var valid := !HasAddress(c.spec.endpoints, DUMMY);
      var exported := c.spec.hosts != [] && c.spec.hosts[0] in enabled;
      var held := c.boot && Destructive(stored.spec, c.spec, exported);
      AfterCall(Some(stored), c, enabled) ==
        (Some(if valid && !held then Object(c.spec, stored.version + 1) else stored), false)
  {
    if !HasAddress(c.spec.endpoints, DUMMY) {
      NothingDropped(c.spec.endpoints);
      assert c.spec.(endpoints := WithoutDummies(c.spec.endpoints)) == c.spec;
    }
  }

  lemma {:induction false} NothingDropped(endpoints: seq<Endpoint>)
    requires !HasAddress(endpoints, DUMMY)
    ensures WithoutDummies(endpoints) == endpoints
  {
    if endpoints != [] {
      var n := |endpoints| - 1;
      assert endpoints[..n + 1] == endpoints;
      AddressesGrow(endpoints, n);
      NothingDropped(endpoints[..n]);
    }
  }

  /** A conflict passes by the guard: with a stale copy and one of five retries arriving, any
      submission with known endpoints replaces the stored object, unless it is destructive
      with respect to the stale copy. When all five are lost the update fails. */
  lemma ConflictBypassesGuard(stored: Object, stale: Object, c: Call, enabled: set<string>)
    requires c.exist == Some(stale) && stale.spec.hosts != [] && stale.version != stored.version
    requires stale.version != 0 && !c.net.updateLost
    requires !HasAddress(c.spec.endpoints, DUMMY)
    requires !Destructive(stale.spec, c.spec, Exported(c.spec, enabled))
    ensures AfterCall(Some(stored), c, enabled) ==
            if {0, 1, 2, 3, 4} <= c.net.lostRetries then (Some(stored), true)
            else (Some(Object(c.spec, stored.version + 1)), false)
  {
    NothingDropped(c.spec.endpoints);
    assert c.spec.(endpoints := WithoutDummies(c.spec.endpoints)) == c.spec;
    assert SomeRetryArrives(c.net) <==> !({0, 1, 2, 3, 4} <= c.net.lostRetries) by {
      if !({0, 1, 2, 3, 4} <= c.net.lostRetries) {
        var i :| i in {0, 1, 2, 3, 4} && i !in c.net.lostRetries;
        assert 0 <= i < RETRIES;
      }
    }
  }

  // ----- creating ----------------------------------------------------------------------------------------

  lemma {:induction false} DummyDropped(a: seq<Endpoint>, e: Endpoint, b: seq<Endpoint>)
    requires e.address == "dummy.admiral.global"
    ensures WithoutDummies(a + [e] + b) == WithoutDummies(a + b)
  {
    var all := a + [e] + b;
    if b == [] {
      assert all[..|all| - 1] == a && a + b == a;
    } else {
      var n := |b| - 1;
      DummyDropped(a, e, b[..n]);
      assert all[..|all| - 1] == a + [e] + b[..n] && (a + b)[..|a + b| - 1] == a + b[..n];
    }
  }

  predicate IsNew(c: Call) {
    c.exist.None? || c.exist.value.spec.hosts == []
  }

  /** A submission without a copy of the stored object. An entry that does not exist yet is
      created with its known endpoints, if it has any. */
  lemma NewEntryCreated(c: Call, enabled: set<string>)
    requires IsNew(c)
    ensures
      var known := exists e :: e in c.spec.endpoints && e.address != "dummy.admiral.global";
      AfterCall(None, c, enabled) ==
        if !known then (None, false)
        else if c.net.createLost then (None, true)
        else (Some(Object(c.spec.(endpoints := WithoutDummies(c.spec.endpoints)), 1)), false)
  {
    WithoutDummiesMembers(c.spec.endpoints);
    var kept := WithoutDummies(c.spec.endpoints);
    if kept != [] {
      assert kept[0] in kept;
    }
  }

  /** An entry that was deleted meanwhile is not created again by an update. */
  lemma DeletedEntryStaysAway(c: Call, enabled: set<string>)
    requires !IsNew(c)
    ensures AfterCall(None, c, enabled).0 == None
    ensures (forall e :: e in c.spec.endpoints ==> e.address != "dummy.admiral.global") && !c.boot ==>
      AfterCall(None, c, enabled).1
  {
    KnownEndpoints(c.spec.endpoints);
  }

  lemma KnownEndpoints(endpoints: seq<Endpoint>)
    ensures HasAddress(endpoints, DUMMY) <==> exists e :: e in endpoints && e.address == "dummy.admiral.global"
  {
    if HasAddress(endpoints, DUMMY) {
      var i :| 0 <= i < |endpoints| && endpoints[i].address == DUMMY;
      assert endpoints[i] in endpoints;
    }
  }

  lemma KnownCall(stored: Object, c: Call, enabled: set<string>)
    requires c.spec.endpoints != [] && !HasAddress(c.spec.endpoints, DUMMY) && !c.net.createLost
    ensures AfterCall(Some(stored), c, enabled) ==
            AfterUpdate(Some(stored), if !IsNew(c) then c.exist.value else if c.net.getLost then Object(c.spec, 0) else stored,
                        c.spec, c, enabled)
  {
    NothingDropped(c.spec.endpoints);
    assert c.spec.(endpoints := WithoutDummies(c.spec.endpoints)) == c.spec;
  }

  /** One that exists is updated as if its copy had been at hand, but only when all endpoints
      are known. When it cannot be read the call fails, unless the update with a blank version
      passes for a conflict. */
  lemma ExistingEntryUpdated(stored: Object, c: Call, enabled: set<string>)
    requires IsNew(c) && c.spec.endpoints != [] && stored.spec.hosts != [] && !c.net.createLost
    ensures
      var known := forall e :: e in c.spec.endpoints ==> e.address != "dummy.admiral.global";
      && (!known ==> AfterCall(Some(stored), c, enabled).0 == Some(stored))
      && (!known && (exists e :: e in c.spec.endpoints && e.address != "dummy.admiral.global") ==>
            AfterCall(Some(stored), c, enabled) == (Some(stored), c.net.getLost))
      && (known && !c.net.getLost ==> AfterCall(Some(stored), c, enabled) == AfterCall(Some(stored), c.(exist := Some(stored)), enabled))
      && (known && c.net.getLost && !c.net.blankConflicts ==> AfterCall(Some(stored), c, enabled).0 == Some(stored))
      && (known && c.net.getLost && !c.net.blankConflicts && !c.boot ==> AfterCall(Some(stored), c, enabled).1)
  {
    KnownEndpoints(c.spec.endpoints);
    WithoutDummiesMembers(c.spec.endpoints);
    if !HasAddress(c.spec.endpoints, DUMMY) {
      KnownCall(stored, c, enabled);
      KnownCall(stored, c.(exist := Some(stored)), enabled);
    }
  }
}
