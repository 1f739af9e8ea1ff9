/** Merging a custom virtual service into the generated in-cluster one. */
module VsMerge {
  import opened Mesh
  import opened Prelude

  /** `dests` is None for a nil destination list. */
  datatype Route = Route(name: string, dests: Option<seq<Destination>>)

  datatype VirtualService = VirtualService(hosts: seq<string>, http: seq<Route>)

  /** The cluster's host-to-destinations cache. */
  type HostCache = map<string, seq<Destination>>

  function Dests(r: Route): seq<Destination> {
    if r.dests.Some? then r.dests.value else []
  }

  // ----- hosts ----------------------------------------------------------------------------------

  method MergeHosts(a: seq<string>, b: seq<string>) returns (merged: seq<string>)
    ensures merged == MergedHosts(a, b)
  {
    merged := a;
    var lookup := set h | h in a;
    for i := 0 to |b|
      invariant merged == MergedHosts(a, b[..i])
      invariant forall h :: h in lookup <==> h in merged
    {
      assert b[..i + 1][..i] == b[..i];
      if b[i] !in lookup {
        lookup := lookup + {b[i]};
        merged := merged + [b[i]];
      }
    }
    assert b[..|b|] == b;
  }

  function MergedHosts(a: seq<string>, b: seq<string>): seq<string> {
    if b == [] then a
    else
      var before := MergedHosts(a, b[..|b| - 1]);
      if b[|b| - 1] in before then before else before + [b[|b| - 1]]
  }

  /** Both inputs' hosts and no others; the custom hosts come first and unchanged. */
  lemma {:induction false} MergedHostsMembers(a: seq<string>, b: seq<string>)
    ensures a <= MergedHosts(a, b)
    ensures forall h :: h in MergedHosts(a, b) <==> h in a || h in b
  {
    if b != [] {
      MergedHostsMembers(a, b[..|b| - 1]);
      assert b == b[..|b| - 1] + [b[|b| - 1]];
    }
  }

  lemma {:induction false} MergedHostsAbsorb(a: seq<string>, b: seq<string>)
    requires forall i :: 0 <= i < |b| ==> b[i] in a
    ensures MergedHosts(a, b) == a
  {
    if b != [] {
      MergedHostsAbsorb(a, b[..|b| - 1]);
    }
  }

  /** The hosts `s` are new to `a` and distinct. */
  ghost predicate NewHosts(a: seq<string>, s: seq<string>) {
    NoDuplicates(s) && forall i :: 0 <= i < |s| ==> s[i] !in a
  }

  /** What is appended to the custom hosts is new and free of duplicates. */
  lemma {:induction false} MergedSuffix(a: seq<string>, b: seq<string>) returns (s: seq<string>)
    ensures MergedHosts(a, b) == a + s && NewHosts(a, s)
  {
    s := [];
    if b != [] {
      var h := b[|b| - 1];
      s := MergedSuffix(a, b[..|b| - 1]);
      if h !in a + s {
        assert a + s + [h] == a + (s + [h]);
        s := s + [h];
      }
    }
  }

  lemma {:induction false} MergedOntoPrefix(a: seq<string>, s: seq<string>)
    requires NewHosts(a, s)
    ensures MergedHosts(a, a + s) == a + s
  {
    if s == [] {
      assert a + s == a;
      MergedHostsAbsorb(a, a);
    } else {
      var n := |s| - 1;
      MergedOntoPrefix(a, s[..n]);
      assert (a + s)[..|a + s| - 1] == a + s[..n];
      assert s[n] !in a + s[..n];
      assert a + s[..n] + [s[n]] == a + s;
    }
  }

  /** Merging the same custom hosts again adds nothing. */
  lemma MergeHostsTwice(a: seq<string>, b: seq<string>)
    ensures MergedHosts(a, MergedHosts(a, b)) == MergedHosts(a, b)
  {
    var s := MergedSuffix(a, b);
    MergedOntoPrefix(a, s);
  }

  /** The in-cluster hosts the custom virtual service does not have. */
  function HostsDiff(incluster: seq<string>, custom: seq<string>): set<string> {
    set h | h in incluster && h !in custom
  }

  method GetHostsDiff(incluster: seq<string>, custom: seq<string>) returns (diff: set<string>)
    ensures diff == HostsDiff(incluster, custom)
  {
    var lookup := set h | h in custom;
    diff := {};
    for i := 0 to |incluster|
      invariant diff == set h | h in incluster[..i] && h !in custom
    {
      assert incluster[..i + 1] == incluster[..i] + [incluster[i]];
      if incluster[i] !in lookup {
        diff := diff + {incluster[i]};
      }
    }
    assert incluster[..|incluster|] == incluster;
  }

  // ----- destinations -----------------------------------------------------------------------------

  /** Division that truncates toward zero. */
  function Truncated(n: int, d: int): int
    requires d > 0
  {
    if n >= 0 then n / d else -((-n) / d)
  }

  function Adjusted(dests: seq<Destination>, weight: int): seq<Destination> {
    if |dests| == 1 then [dests[0].(weight := weight)]
    else seq(|dests|, i requires 0 <= i < |dests| => dests[i].(weight := Truncated(dests[i].weight * weight, 100)))
  }

  /** The last route of a name wins. */
  function Lookup(routes: seq<Route>, host: string): Option<Route> {
    if routes == [] then None
    else
      var n := |routes| - 1;
      if routes[n].name == host then Some(routes[n]) else Lookup(routes[..n], host)
  }

  /** What a global host resolves to; None when neither the routes nor the cache know it. */
  function Resolve(routes: seq<Route>, cache: HostCache, host: string): Option<seq<Destination>> {
    match Lookup(routes, host)
    case Some(r) => r.dests
    case None => if host in cache then Some(cache[host]) else None
  }

  function Replaced(routes: seq<Route>, cache: HostCache, d: Destination): seq<Destination> {
    match Resolve(routes, cache, d.host)
    case None => [d]
    case Some(rd) => if d.weight == 0 then rd else Adjusted(rd, d.weight)
  }

  function ReplacedAll(routes: seq<Route>, cache: HostCache, dests: seq<Destination>): seq<Destination> {
    if dests == [] then []
    else ReplacedAll(routes, cache, dests[..|dests| - 1]) + Replaced(routes, cache, dests[|dests| - 1])
  }

  function ModifiedRoute(routes: seq<Route>, cache: HostCache, r: Route): Route {
    Route(r.name, Some(ReplacedAll(routes, cache, Dests(r))))
  }

  function Modified(custom: seq<Route>, routes: seq<Route>, cache: HostCache): seq<Route> {
    seq(|custom|, i requires 0 <= i < |custom| => ModifiedRoute(routes, cache, custom[i]))
  }

  /** `target` is what a name stands for: the destinations of its last route, or without a
      route those in the cache. */
  ghost predicate StandsFor(routes: seq<Route>, cache: HostCache, name: string, target: Option<seq<Destination>>) {
    || (exists i :: 0 <= i < |routes| && routes[i].name == name && routes[i].dests == target &&
          forall j :: i < j < |routes| ==> routes[j].name != name)
    || ((forall j :: 0 <= j < |routes| ==> routes[j].name != name) &&
        target == if name in cache then Some(cache[name]) else None)
  }

  lemma {:induction false} LookupIsLast(routes: seq<Route>, name: string) returns (i: nat)
    ensures Lookup(routes, name).None? ==> forall j :: 0 <= j < |routes| ==> routes[j].name != name
    ensures Lookup(routes, name).Some? ==>
      && i < |routes| && routes[i] == Lookup(routes, name).value && routes[i].name == name
      && forall j :: i < j < |routes| ==> routes[j].name != name
  {
    i := 0;
    if routes != [] {
      i := LookupIsLast(routes[..|routes| - 1], name);
      if routes[|routes| - 1].name == name {
        i := |routes| - 1;
      }
    }
  }

  lemma ResolveIs(routes: seq<Route>, cache: HostCache, name: string, target: Option<seq<Destination>>)
    ensures Resolve(routes, cache, name) == target <==> StandsFor(routes, cache, name, target)
  {
    var i := LookupIsLast(routes, name);
  }

  /** `here` is what a destination of weight `weight` becomes when its host stands for `target`:
      as it is without a weight, one destination of that weight, or several of truncated
      shares. */
  ghost predicate Becomes(target: seq<Destination>, weight: int, here: seq<Destination>) {
    && |here| == |target|
    && (forall k :: 0 <= k < |here| ==> here[k].host == target[k].host && here[k].port == target[k].port)
    && (forall k :: 0 <= k < |here| ==>
          if weight == 0 then here[k].weight == target[k].weight
          else if |here| == 1 then here[k].weight == weight
          else IsShare(target[k].weight * weight, here[k].weight))
  }

  /** `q` is the hundredth part of `n`, truncated toward zero. */
  predicate IsShare(n: int, q: int) {
    if n >= 0 then 0 <= n - 100 * q < 100 else -100 < n - 100 * q <= 0
  }

  lemma TruncatedIsShare(n: int)
    ensures IsShare(n, Truncated(n, 100))
  {
  }

  lemma ReplacedBecomes(routes: seq<Route>, cache: HostCache, d: Destination, target: Option<seq<Destination>>)
    requires StandsFor(routes, cache, d.host, target)
    ensures target.None? ==> Replaced(routes, cache, d) == [d]
    ensures target.Some? ==> Becomes(target.value, d.weight, Replaced(routes, cache, d))
  {
    ResolveIs(routes, cache, d.host, target);
    if target.Some? {
      forall k | 0 <= k < |target.value|
        ensures IsShare(target.value[k].weight * d.weight, Truncated(target.value[k].weight * d.weight, 100))
      {
        TruncatedIsShare(target.value[k].weight * d.weight);
      }
    }
  }

  /** A modified custom route is put together from its destinations in turn, each of them
      giving what its host stands for. A host that stands for nothing stays. */
  lemma DestinationReplaced(custom: seq<Route>, routes: seq<Route>, cache: HostCache, m: nat, j: nat, target: Option<seq<Destination>>)
    returns (here: seq<Destination>)
    requires m < |custom| && j < |Dests(custom[m])|
    requires StandsFor(routes, cache, Dests(custom[m])[j].host, target)
    ensures |Modified(custom, routes, cache)| == |custom|
    ensures
      var dests := Dests(custom[m]);
      && Modified(custom, routes, cache)[m] == Route(custom[m].name, Some(ReplacedAll(routes, cache, dests[..|dests|])))
      && ReplacedAll(routes, cache, dests[..j + 1]) == ReplacedAll(routes, cache, dests[..j]) + here
      && ReplacedAll(routes, cache, dests[..0]) == []
      && if target.None? then here == [dests[j]] else Becomes(target.value, dests[j].weight, here)
  {
    var dests := Dests(custom[m]);
    here := Replaced(routes, cache, dests[j]);
    ReplacedBecomes(routes, cache, dests[j], target);
    assert dests[..|dests|] == dests && dests[..j + 1][..j] == dests[..j];
  }

  type RouteLookup = map<string, Option<seq<Destination>>>

  ghost predicate LooksUp(lookup: RouteLookup, routes: seq<Route>) {
    && (forall h :: h in lookup <==> Lookup(routes, h).Some?)
    && (forall h :: h in lookup ==> lookup[h] == Lookup(routes, h).value.dests)
  }

  method LookupOf(routes: seq<Route>) returns (lookup: RouteLookup)
    ensures LooksUp(lookup, routes)
  {
    lookup := map[];
    for i := 0 to |routes|
      invariant LooksUp(lookup, routes[..i])
    {
      assert routes[..i + 1][..i] == routes[..i];
      lookup := lookup[routes[i].name := routes[i].dests];
    }
    assert routes[..|routes|] == routes;
  }

  method ReplaceDestinations(lookup: RouteLookup, cache: HostCache, dests: seq<Destination>, ghost routes: seq<Route>)
    returns (replaced: seq<Destination>)
    requires LooksUp(lookup, routes)
    ensures replaced == ReplacedAll(routes, cache, dests)
  {
    replaced := [];
    for j := 0 to |dests|
      invariant replaced == ReplacedAll(routes, cache, dests[..j])
    {
      var d := dests[j];
      assert dests[..j + 1][..j] == dests[..j];
      var rd := if d.host in lookup then lookup[d.host]
                else if d.host in cache then Some(cache[d.host]) else None;
      if rd.None? {
        replaced := replaced + [d];
      } else if d.weight == 0 {
        replaced := replaced + rd.value;
      } else {
        var adjusted := AdjustWeights(rd.value, d.weight);
        replaced := replaced + adjusted;
      }
    }
    assert dests[..|dests|] == dests;
  }

  method ModifyCustomRoutes(custom: seq<Route>, routes: seq<Route>, cache: HostCache) returns (modified: seq<Route>)
    ensures modified == Modified(custom, routes, cache)
  {
    var lookup := LookupOf(routes);
    modified := [];
    for i := 0 to |custom|
      invariant modified == Modified(custom[..i], routes, cache)
    {
      var replaced := ReplaceDestinations(lookup, cache, Dests(custom[i]), routes);
      modified := modified + [Route(custom[i].name, Some(replaced))];
    }
    assert custom[..|custom|] == custom;
  }

  method AdjustWeights(dests: seq<Destination>, weight: int) returns (adjusted: seq<Destination>)
    ensures adjusted == Adjusted(dests, weight)
  {
    if |dests| == 1 {
      return [dests[0].(weight := weight)];
    }
    adjusted := [];
    for i := 0 to |dests|
      invariant |adjusted| == i
      invariant forall k :: 0 <= k < i ==> adjusted[k] == dests[k].(weight := Truncated(dests[k].weight * weight, 100))
    {
      adjusted := adjusted + [dests[i].(weight := Truncated(dests[i].weight * weight, 100))];
    }
  }

  // ----- route order --------------------------------------------------------------------------------

  /** The routes whose name is in (`keep`) or out of a set, in their order. */
  function Named(routes: seq<Route>, names: set<string>, keep: bool): seq<Route> {
    if routes == [] then []
    else
      var n := |routes| - 1;
      Named(routes[..n], names, keep) + if (routes[n].name in names) == keep then [routes[n]] else []
  }

  function Names(routes: seq<Route>): set<string> {
    set r | r in routes :: r.name
  }

  function Sorted(custom: seq<Route>, incluster: seq<Route>, diff: set<string>): seq<Route> {
    Named(incluster, diff, true) + custom + Named(Named(incluster, diff, false), Names(custom), false)
  }

  method SortRoutes(custom: seq<Route>, incluster: seq<Route>, diff: set<string>) returns (sorted: seq<Route>)
    ensures sorted == Sorted(custom, incluster, diff)
  {
    var nonDefault: seq<Route>, default: seq<Route> := [], [];
    for i := 0 to |incluster|
      invariant nonDefault == Named(incluster[..i], diff, true)
      invariant default == Named(incluster[..i], diff, false)
    {
      assert incluster[..i + 1][..i] == incluster[..i];
      if incluster[i].name in diff {
        nonDefault := nonDefault + [incluster[i]];
      } else {
        default := default + [incluster[i]];
      }
    }
    assert incluster[..|incluster|] == incluster;
    var customNames: set<string> := {};
    for i := 0 to |custom|
      invariant customNames == Names(custom[..i])
    {
      assert custom[..i + 1] == custom[..i] + [custom[i]];
      customNames := customNames + {custom[i].name};
    }
    assert custom[..|custom|] == custom;
    var deduplicated: seq<Route> := [];
    for i := 0 to |default|
      invariant deduplicated == Named(default[..i], customNames, false)
    {
      assert default[..i + 1][..i] == default[..i];
      if default[i].name !in customNames {
        deduplicated := deduplicated + [default[i]];
      }
    }
    assert default[..|default|] == default;
    sorted := nonDefault + custom + deduplicated;
  }

  function Merged(custom: VirtualService, incluster: VirtualService, cache: HostCache): VirtualService {
    VirtualService(
      MergedHosts(custom.hosts, incluster.hosts),
      Sorted(Modified(custom.http, incluster.http, cache), incluster.http, HostsDiff(incluster.hosts, custom.hosts)))
  }

  method MergeVS(custom: VirtualService, incluster: VirtualService, cache: HostCache) returns (merged: VirtualService)
    ensures merged == Merged(custom, incluster, cache)
  {
    var hosts := MergeHosts(custom.hosts, incluster.hosts);
    var modified := ModifyCustomRoutes(custom.http, incluster.http, cache);
    var diff := GetHostsDiff(incluster.hosts, custom.hosts);
    var sorted := SortRoutes(modified, incluster.http, diff);
    merged := VirtualService(hosts, sorted);
  }
}
