/** In-cluster destinations under a global traffic policy: the local services are scaled to
    their region's share and the rest of the traffic goes to the mesh host. */
module GtpRouting {
  import opened Mesh
  import opened Prelude
  import opened Weights
  import VsMerge

  datatype Policy = Policy(dnsPrefix: string, topology: bool, targets: seq<(string, int)>)

  const LOCAL_SUFFIX := ".svc.cluster.local"
  const PREVIEW_PREFIX := "preview"
  const DEFAULT := "default"

  predicate IsLocal(d: Destination) {
    |d.host| >= |LOCAL_SUFFIX| && d.host[|d.host| - |LOCAL_SUFFIX|..] == LOCAL_SUFFIX
  }

  /** The weight of a region, the last target of a region winning; 0 for other regions. */
  function WeightFor(targets: seq<(string, int)>, region: string): int {
    if targets == [] then 0
    else
      var n := |targets| - 1;
      if targets[n].0 == region then targets[n].1 else WeightFor(targets[..n], region)
  }

  /** The mesh-host destination; a weight that is not positive stays unset. */
  function MeshDestination(host: string, weight: int): Destination {
    Destination(host, 80, if weight > 0 then weight else 0)
  }

  function ScaledDest(d: Destination, share: int): Destination {
    if !IsLocal(d) || share == 100 then d
    else if share == 0 then d.(weight := 0)
    else if d.weight != 0 then d.(weight := VsMerge.Truncated(d.weight * share, 100))
    else d.(weight := share)
  }

  function ScaledDests(dests: seq<Destination>, share: int): seq<Destination> {
    seq(|dests|, i requires 0 <= i < |dests| => ScaledDest(dests[i], share))
  }

  predicate HasLocal(dests: seq<Destination>) {
    exists i :: 0 <= i < |dests| && IsLocal(dests[i])
  }

  function SplitDests(dests: seq<Destination>, share: int, host: string): seq<Destination> {
    ScaledDests(dests, share) +
    if HasLocal(dests) && share != 100 then [MeshDestination(host, 100 - share)] else []
  }

  /** The host a policy routes, if it routes any. */
  function RouteHost(p: Policy, fqdn: string, env: string, updateWeights: bool): Option<string> {
    var own := p.dnsPrefix == DEFAULT || p.dnsPrefix == env;
    if !updateWeights && p.targets == [] && own then None
    else if own then Some(fqdn)
    else Some(p.dnsPrefix + "." + fqdn)
  }

  function PolicyDests(p: Policy, dests: seq<Destination>, host: string, region: string, updateWeights: bool): seq<Destination> {
    if p.topology || !updateWeights || p.targets == [] then dests
    else SplitDests(dests, WeightFor(p.targets, region), host)
  }

  type Routes = map<string, seq<Destination>>

  /** The destination map of a cluster; None is a nil list. */
  type Destinations = map<string, Option<seq<Destination>>>

  function AfterPolicies(
      policies: seq<Policy>, routes: Routes, fqdn: string, dests: seq<Destination>, env: string, region: string, updateWeights: bool)
    : Routes
  {
    if policies == [] then routes
    else
      var n := |policies| - 1;
      var before := AfterPolicies(policies[..n], routes, fqdn, dests, env, region, updateWeights);
      match RouteHost(policies[n], fqdn, env, updateWeights)
      case None => before
      case Some(host) => before[host := PolicyDests(policies[n], dests, host, region, updateWeights)]
  }

  predicate Skipped(destinations: Destinations, fqdn: string) {
    fqdn !in destinations || destinations[fqdn].None? || PREVIEW_PREFIX <= fqdn
  }

  function AfterHosts(
      policies: seq<Policy>, destinations: Destinations, order: seq<string>,
      env: string, region: string, updateWeights: bool): Routes
  {
    if order == [] then map[]
    else
      var n := |order| - 1;
      var before := AfterHosts(policies, destinations, order[..n], env, region, updateWeights);
      if Skipped(destinations, order[n]) then before
      else AfterPolicies(policies, before, order[n], destinations[order[n]].value, env, region, updateWeights)
  }

  /** The loop over the copied destinations of one policy. */
  method SplitForShare(dests: seq<Destination>, share: int, host: string) returns (result: seq<Destination>)
    ensures result == SplitDests(dests, share, host)
  {
    result := dests;
    var remote: Option<Destination> := None;
    for i := 0 to |dests|
      invariant |result| == |dests|
      invariant forall k :: 0 <= k < |dests| ==> result[k] == if k < i then ScaledDest(dests[k], share) else dests[k]
      invariant remote == if HasLocal(dests[..i]) && share != 100 then Some(MeshDestination(host, 100 - share)) else None
    {
      var d := result[i];
      assert dests[..i + 1] == dests[..i] + [dests[i]];
      assert HasLocal(dests[..i + 1]) <==> HasLocal(dests[..i]) || IsLocal(dests[i]) by {
        assert dests[..i + 1][i] == dests[i];
        assert forall k :: 0 <= k < i ==> dests[..i][k] == dests[..i + 1][k];
      }
      if IsLocal(d) && share != 100 {
        if share == 0 {
          remote := Some(MeshDestination(host, 100 - share));
          result := result[i := d.(weight := share)];
        } else {
          if d.weight != 0 {
            result := result[i := d.(weight := VsMerge.Truncated(d.weight * share, 100))];
          } else {
            result := result[i := d.(weight := share)];
          }
          remote := Some(MeshDestination(host, 100 - share));
        }
      }
    }
    assert dests[..|dests|] == dests;
    assert result == ScaledDests(dests, share);
    if remote.Some? {
      result := result + [remote.value];
    }
  }

  method DestinationsForGtp(
      policies: seq<Policy>, destinations: Destinations, order: seq<string>,
      env: string, region: string, updateWeights: bool) returns (routes: Routes)
    ensures routes == AfterHosts(policies, destinations, order, env, region, updateWeights)
  {
    routes := map[];
    for i := 0 to |order|
      invariant routes == AfterHosts(policies, destinations, order[..i], env, region, updateWeights)
    {
      var fqdn := order[i];
      assert order[..i + 1][..i] == order[..i];
      if fqdn in destinations && destinations[fqdn].Some? && !(PREVIEW_PREFIX <= fqdn) {
        var dests := destinations[fqdn].value;
        ghost var before := routes;
        for j := 0 to |policies|
          invariant routes == AfterPolicies(policies[..j], before, fqdn, dests, env, region, updateWeights)
        {
          var p := policies[j];
          assert policies[..j + 1][..j] == policies[..j];
          var own := p.dnsPrefix == DEFAULT || p.dnsPrefix == env;
          if !(!updateWeights && p.targets == [] && own) {
            var host := if own then fqdn else p.dnsPrefix + "." + fqdn;
            if p.topology || !updateWeights || p.targets == [] {
              routes := routes[host := dests];
            } else {
              var share := WeightOf(p.targets, region);
              var split := SplitForShare(dests, share, host);
              routes := routes[host := split];
            }
          }
        }
        assert policies[..|policies|] == policies;
      }
    }
    assert order[..|order|] == order;
  }

  method WeightOf(targets: seq<(string, int)>, region: string) returns (weight: int)
    ensures weight == WeightFor(targets, region)
  {
    var weights: map<string, int> := map[];
    for i := 0 to |targets|
      invariant forall r :: (if r in weights then weights[r] else 0) == WeightFor(targets[..i], r)
    {
      assert targets[..i + 1][..i] == targets[..i];
      weights := weights[targets[i].0 := targets[i].1];
    }
    assert targets[..|targets|] == targets;
    weight := if region in weights then weights[region] else 0;
  }

  // ----- which routes there are ----------------------------------------------------------------------

  /** Policy `i`, applied to the destinations of `fqdn`, makes a route for `h`. */
  predicate Makes(
      policies: seq<Policy>, destinations: Destinations, env: string, updateWeights: bool,
      fqdn: string, i: nat, h: string)
  {
    !Skipped(destinations, fqdn) && i < |policies| && RouteHost(policies[i], fqdn, env, updateWeights) == Some(h)
  }

  /** The route of `h` after one host's policies: the last policy that makes it, or what was
      there before. */
  lemma {:induction false} RouteAfterPolicies(
      policies: seq<Policy>, routes: Routes, destinations: Destinations, fqdn: string,
      env: string, region: string, updateWeights: bool, h: string)
    returns (i: Option<nat>)
    requires !Skipped(destinations, fqdn)
    ensures
      var after := AfterPolicies(policies, routes, fqdn, destinations[fqdn].value, env, region, updateWeights);
      match i
      case None => (forall j: nat :: !Makes(policies, destinations, env, updateWeights, fqdn, j, h)) &&
                   (h in after <==> h in routes) && (h in routes ==> after[h] == routes[h])
      case Some(n) => Makes(policies, destinations, env, updateWeights, fqdn, n, h) &&
                      (forall j: nat :: Makes(policies, destinations, env, updateWeights, fqdn, j, h) ==> j <= n) &&
                      h in after && after[h] == PolicyDests(policies[n], destinations[fqdn].value, h, region, updateWeights)
  {
    i := None;
    if policies != [] {
      var n := |policies| - 1;
      i := RouteAfterPolicies(policies[..n], routes, destinations, fqdn, env, region, updateWeights, h);
      assert forall j: nat :: j < n ==> policies[..n][j] == policies[j];
      assert forall j: nat :: j < n ==>
        (Makes(policies[..n], destinations, env, updateWeights, fqdn, j, h) <==>
         Makes(policies, destinations, env, updateWeights, fqdn, j, h));
      if RouteHost(policies[n], fqdn, env, updateWeights) == Some(h) {
        i := Some(n);
      }
    }
  }

  /** `h` is routed by policy `i` on the destinations of `fqdn`, the last policy of `fqdn` to do so. */
  predicate RoutedBy(
      policies: seq<Policy>, destinations: Destinations, env: string, region: string, updateWeights: bool,
      fqdn: string, i: nat, h: string, route: seq<Destination>)
  {
    && Makes(policies, destinations, env, updateWeights, fqdn, i, h)
    && (forall j :: i < j < |policies| ==> !Makes(policies, destinations, env, updateWeights, fqdn, j, h))
    && route == PolicyDests(policies[i], destinations[fqdn].value, h, region, updateWeights)
  }

  predicate MakesNone(
      policies: seq<Policy>, destinations: Destinations, env: string, updateWeights: bool,
      fqdn: string, h: string)
  {
    forall j :: 0 <= j < |policies| ==> !Makes(policies, destinations, env, updateWeights, fqdn, j, h)
  }

  /** Which route a host name gets: none when no visited host makes one; otherwise the one that
      the last visited host to make one makes by its last such policy. */
  lemma {:induction false} RoutesComeFromPolicies(
      policies: seq<Policy>, destinations: Destinations, order: seq<string>,
      env: string, region: string, updateWeights: bool, h: string)
    returns (maker: Option<(nat, nat)>)
    ensures
      var routes := AfterHosts(policies, destinations, order, env, region, updateWeights);
      match maker
      case None =>
        h !in routes && forall m :: 0 <= m < |order| ==> MakesNone(policies, destinations, env, updateWeights, order[m], h)
      case Some(at) =>
        && h in routes && at.0 < |order|
        && RoutedBy(policies, destinations, env, region, updateWeights, order[at.0], at.1, h, routes[h])
        && forall m :: at.0 < m < |order| ==> MakesNone(policies, destinations, env, updateWeights, order[m], h)
  {
    maker := None;
    if order != [] {
      var n := |order| - 1;
      maker := RoutesComeFromPolicies(policies, destinations, order[..n], env, region, updateWeights, h);
      assert forall m :: 0 <= m < n ==> order[..n][m] == order[m];
      if !Skipped(destinations, order[n]) {
        var before := AfterHosts(policies, destinations, order[..n], env, region, updateWeights);
        var i := RouteAfterPolicies(policies, before, destinations, order[n], env, region, updateWeights, h);
        if i.Some? {
          maker := Some((n, i.value));
        }
      }
    }
  }

  /** `order` walks the destination map. */
  ghost predicate Walks(order: seq<string>, destinations: Destinations) {
    NoDuplicates(order) && forall f :: f in order <==> f in destinations
  }

  /** Hosts that make a route under the same name make the same route. */
  ghost predicate AgreeOnRoutes(
      policies: seq<Policy>, destinations: Destinations, env: string, region: string, updateWeights: bool)
  {
    forall f, i, g, j, h, r, t ::
      (&& RoutedBy(policies, destinations, env, region, updateWeights, f, i, h, r)
       && RoutedBy(policies, destinations, env, region, updateWeights, g, j, h, t))
      ==> r == t
  }

  ghost predicate WalkOrderIrrelevant(
      policies: seq<Policy>, destinations: Destinations, env: string, region: string, updateWeights: bool)
  {
    forall a, b :: Walks(a, destinations) && Walks(b, destinations) ==>
      AfterHosts(policies, destinations, a, env, region, updateWeights) ==
      AfterHosts(policies, destinations, b, env, region, updateWeights)
  }

  lemma AgreedRoute(
      policies: seq<Policy>, destinations: Destinations, a: seq<string>, b: seq<string>,
      env: string, region: string, updateWeights: bool, h: string)
    requires AgreeOnRoutes(policies, destinations, env, region, updateWeights)
    requires Walks(a, destinations) && Walks(b, destinations)
    ensures
      var first := AfterHosts(policies, destinations, a, env, region, updateWeights);
      var second := AfterHosts(policies, destinations, b, env, region, updateWeights);
      h in first ==> h in second && first[h] == second[h]
  {
    var first := AfterHosts(policies, destinations, a, env, region, updateWeights);
    var second := AfterHosts(policies, destinations, b, env, region, updateWeights);
    var x := RoutesComeFromPolicies(policies, destinations, a, env, region, updateWeights, h);
    var y := RoutesComeFromPolicies(policies, destinations, b, env, region, updateWeights, h);
    if x.Some? {
      var f := a[x.value.0];
      assert f in b;
      var m :| 0 <= m < |b| && b[m] == f;
      assert !MakesNone(policies, destinations, env, updateWeights, f, h);
    }
  }

  lemma AgreedRoutes(
      policies: seq<Policy>, destinations: Destinations, a: seq<string>, b: seq<string>,
      env: string, region: string, updateWeights: bool)
    requires AgreeOnRoutes(policies, destinations, env, region, updateWeights)
    requires Walks(a, destinations) && Walks(b, destinations)
    ensures
      var first := AfterHosts(policies, destinations, a, env, region, updateWeights);
      var second := AfterHosts(policies, destinations, b, env, region, updateWeights);
      forall h :: h in first ==> h in second && first[h] == second[h]
  {
    var first := AfterHosts(policies, destinations, a, env, region, updateWeights);
    var second := AfterHosts(policies, destinations, b, env, region, updateWeights);
    forall h | h in first
      ensures h in second && first[h] == second[h]
    {
      AgreedRoute(policies, destinations, a, b, env, region, updateWeights, h);
    }
  }

  /** The host walked last gets its route. */
  lemma LastHostWins(
      policies: seq<Policy>, destinations: Destinations, f: string, i: nat, h: string, r: seq<Destination>,
      env: string, region: string, updateWeights: bool)
    returns (order: seq<string>)
    requires RoutedBy(policies, destinations, env, region, updateWeights, f, i, h, r)
    ensures Walks(order, destinations)
    ensures
      var routes := AfterHosts(policies, destinations, order, env, region, updateWeights);
      h in routes && routes[h] == r
  {
    order := Enumerated(destinations.Keys - {f});
    order := order + [f];
    var at := RoutesComeFromPolicies(policies, destinations, order, env, region, updateWeights, h);
    assert order[|order| - 1] == f && !MakesNone(policies, destinations, env, updateWeights, f, h);
  }

  /** The order in which the destination map is walked does not matter exactly when hosts that
      make a route under the same name make the same one. */
  lemma WalkOrderIndependent(
      policies: seq<Policy>, destinations: Destinations, env: string, region: string, updateWeights: bool)
    ensures WalkOrderIrrelevant(policies, destinations, env, region, updateWeights) <==>
            AgreeOnRoutes(policies, destinations, env, region, updateWeights)
  {
    if AgreeOnRoutes(policies, destinations, env, region, updateWeights) {
      forall a, b | Walks(a, destinations) && Walks(b, destinations)
        ensures AfterHosts(policies, destinations, a, env, region, updateWeights) ==
                AfterHosts(policies, destinations, b, env, region, updateWeights)
      {
        AgreedRoutes(policies, destinations, a, b, env, region, updateWeights);
        AgreedRoutes(policies, destinations, b, a, env, region, updateWeights);
      }
    }
    if WalkOrderIrrelevant(policies, destinations, env, region, updateWeights) {
      forall f, i, g, j, h, r, t |
        && RoutedBy(policies, destinations, env, region, updateWeights, f, i, h, r)
        && RoutedBy(policies, destinations, env, region, updateWeights, g, j, h, t)
        ensures r == t
      {
        var a := LastHostWins(policies, destinations, f, i, h, r, env, region, updateWeights);
        var b := LastHostWins(policies, destinations, g, j, h, t, env, region, updateWeights);
      }
    }
  }

  /** It matters when the prefixed name of one host is another host: both are routed under that
      name, and the one walked last wins. */
  lemma SharedRouteNameOrderMatters(x: string, prefix: string, dx: seq<Destination>, dy: seq<Destination>, env: string, region: string)
    requires prefix != DEFAULT && prefix != env
    requires !(PREVIEW_PREFIX <= x) && !(PREVIEW_PREFIX <= prefix + "." + x)
    ensures
      var y := prefix + "." + x;
      var policies := [Policy(prefix, true, []), Policy(DEFAULT, true, [])];
      var destinations := map[x := Some(dx), y := Some(dy)];
      var first := AfterHosts(policies, destinations, [x, y], env, region, true);
      var second := AfterHosts(policies, destinations, [y, x], env, region, true);
      y in first && y in second && first[y] == dy && second[y] == dx
  {
    var y := prefix + "." + x;
    assert |y| == |prefix| + 1 + |x|;
    var policies := [Policy(prefix, true, []), Policy(DEFAULT, true, [])];
    var destinations := map[x := Some(dx), y := Some(dy)];
    WalkedTwo(policies, destinations, x, y, env, region);
    WalkedTwo(policies, destinations, y, x, env, region);
    TwoPolicies(AfterPolicies(policies, map[], x, dx, env, region, true), y, dy, prefix, env, region);
    TwoPolicies(AfterPolicies(policies, map[], y, dy, env, region, true), x, dx, prefix, env, region);
  }

  lemma WalkedTwo(
      policies: seq<Policy>, destinations: Destinations, x: string, y: string, env: string, region: string)
    requires !Skipped(destinations, x) && !Skipped(destinations, y)
    ensures AfterHosts(policies, destinations, [x, y], env, region, true) ==
            AfterPolicies(policies, AfterPolicies(policies, map[], x, destinations[x].value, env, region, true),
                          y, destinations[y].value, env, region, true)
  {
    assert [x, y][..1] == [x] && [x][..0] == [];
    assert AfterHosts(policies, destinations, [x], env, region, true) ==
           AfterPolicies(policies, map[], x, destinations[x].value, env, region, true);
  }

  lemma TwoPolicies(routes: Routes, fqdn: string, dests: seq<Destination>, prefix: string, env: string, region: string)
    requires prefix != DEFAULT && prefix != env
    ensures
      AfterPolicies([Policy(prefix, true, []), Policy(DEFAULT, true, [])], routes, fqdn, dests, env, region, true) ==
      routes[prefix + "." + fqdn := dests][fqdn := dests]
  {
    var policies := [Policy(prefix, true, []), Policy(DEFAULT, true, [])];
    assert policies[..1] == [policies[0]] && [policies[0]][..0] == [];
    assert AfterPolicies([policies[0]], routes, fqdn, dests, env, region, true) == routes[prefix + "." + fqdn := dests];
  }

  // ----- conservation -----------------------------------------------------------------------------------

  predicate AllLocal(dests: seq<Destination>) {
    dests != [] && forall i :: 0 <= i < |dests| ==> IsLocal(dests[i])
  }

  predicate NonNegative(dests: seq<Destination>) {
    forall i :: 0 <= i < |dests| ==> dests[i].weight >= 0
  }

  lemma {:induction false} NonNegativeSum(ws: seq<int>)
    requires forall i :: 0 <= i < |ws| ==> ws[i] >= 0
    ensures Sum(ws) >= 0
  {
    if ws != [] {
      NonNegativeSum(ws[1..]);
    }
  }

  lemma {:induction false} ZeroSum(ws: seq<int>)
    requires forall i :: 0 <= i < |ws| ==> ws[i] == 0
    ensures Sum(ws) == 0
  {
    if ws != [] {
      ZeroSum(ws[1..]);
    }
  }

  /** Local services with positive weights that total 100, split with a share between 0 and
      100: the mesh host gets exactly the rest, and the total stays above 100 - n and at most
      100. Without truncation, at the shares 0 and 100, it is exactly 100. */
  lemma SplitConserves(dests: seq<Destination>, share: nat, host: string)
    requires AllLocal(dests) && share <= 100
    requires Sum(DestWeights(dests)) == 100 && forall i :: 0 <= i < |dests| ==> dests[i].weight > 0
    ensures
      var split := SplitDests(dests, share, host);
      var total := Sum(DestWeights(split));
      && 100 - |dests| < total <= 100
      && (share == 0 || share == 100 ==> total == 100)
      && (share < 100 ==> |split| == |dests| + 1 && split[|dests|] == Destination(host, 80, 100 - share))
      && (share == 100 ==> split == dests)
  {
    var split, scaled := SplitDests(dests, share, host), ScaledDests(dests, share);
    assert IsLocal(dests[0]);
    if share == 100 {
      assert split == dests;
    } else {
      var remote := [MeshDestination(host, 100 - share)];
      assert DestWeights(split) == DestWeights(scaled) + [100 - share];
      SumAppend(DestWeights(scaled), [100 - share]);
      if share == 0 {
        ZeroSum(DestWeights(scaled));
      } else {
        var ws: seq<nat> := seq(|dests|, i requires 0 <= i < |dests| => dests[i].weight);
        assert ws == DestWeights(dests);
        ScaledTotal(ws, share);
        forall i | 0 <= i < |dests|
          ensures DestWeights(scaled)[i] == ws[i] * share / 100
        {
          ProductNonNegative(dests[i].weight, share);
        }
        assert DestWeights(scaled) == Weights.Scaled(ws, share);
      }
    }
  }

  function Unweighted(dests: seq<Destination>): nat {
    if dests == [] then 0 else (if dests[0].weight == 0 then 1 else 0) + Unweighted(dests[1..])
  }

  /** What the unweighted destinations get. */
  function SharesOfUnweighted(dests: seq<Destination>, share: nat): int {
    if dests == [] then 0 else (if dests[0].weight == 0 then share else 0) + SharesOfUnweighted(dests[1..], share)
  }

  lemma {:induction false} SharesAreMultiples(dests: seq<Destination>, share: nat)
    ensures SharesOfUnweighted(dests, share) == share * Unweighted(dests)
  {
    if dests != [] {
      SharesAreMultiples(dests[1..], share);
      OneMore(Unweighted(dests), share);
    }
  }

  lemma ScaledOne(d: Destination, share: nat)
    requires IsLocal(d) && d.weight >= 0 && 0 < share < 100
    ensures ScaledDest(d, share).weight == d.weight * share / 100 + if d.weight == 0 then share else 0
  {
    ProductNonNegative(d.weight, share);
  }

  lemma ScaledFirst(dests: seq<Destination>, share: nat)
    requires dests != []
    ensures Sum(DestWeights(ScaledDests(dests, share))) ==
            ScaledDest(dests[0], share).weight + Sum(DestWeights(ScaledDests(dests[1..], share)))
    ensures Sum(Weights.Scaled(DestWeights(dests), share)) ==
            dests[0].weight * share / 100 + Sum(Weights.Scaled(DestWeights(dests[1..]), share))
  {
    assert DestWeights(ScaledDests(dests, share))[1..] == DestWeights(ScaledDests(dests[1..], share));
    assert Weights.Scaled(DestWeights(dests), share)[1..] == Weights.Scaled(DestWeights(dests[1..]), share);
  }

  /** Each weighted local service takes its share of the region's, each unweighted one the
      region's whole share. */
  lemma {:induction false} ScaledDestsTotal(dests: seq<Destination>, share: nat)
    requires 0 < share < 100 && NonNegative(dests)
    requires forall i :: 0 <= i < |dests| ==> IsLocal(dests[i])
    ensures Sum(DestWeights(ScaledDests(dests, share))) ==
            Sum(Weights.Scaled(DestWeights(dests), share)) + SharesOfUnweighted(dests, share)
  {
    if dests != [] {
      ScaledDestsTotal(dests[1..], share);
      ScaledFirst(dests, share);
      ScaledOne(dests[0], share);
    }
  }

  lemma {:induction false} ScaledNonNegative(ws: seq<int>, share: nat)
    requires forall i :: 0 <= i < |ws| ==> ws[i] >= 0
    ensures Sum(Weights.Scaled(ws, share)) >= 0
  {
    if ws != [] {
      ScaledNonNegative(ws[1..], share);
      assert Weights.Scaled(ws, share)[1..] == Weights.Scaled(ws[1..], share);
      ProductNonNegative(ws[0], share);
    }
  }

  lemma SplitSum(dests: seq<Destination>, share: nat, host: string)
    requires AllLocal(dests) && NonNegative(dests) && share < 100
    ensures
      var split := DestWeights(SplitDests(dests, share, host));
      && |split| > 1
      && (share == 0 ==> Sum(split) == 100)
      && (share > 0 ==>
            Sum(split) == Sum(Weights.Scaled(DestWeights(dests), share)) + SharesOfUnweighted(dests, share) + (100 - share))
  {
    var split, scaled := SplitDests(dests, share, host), ScaledDests(dests, share);
    assert IsLocal(dests[0]);
    assert DestWeights(split) == DestWeights(scaled) + [100 - share];
    SumAppend(DestWeights(scaled), [100 - share]);
    if share == 0 {
      ZeroSum(DestWeights(scaled));
    } else {
      ScaledDestsTotal(dests, share);
    }
  }

  /** The total for any local services: exactly 100 at share 0, unchanged at share 100. In
      between it stays at most 100 exactly when either all services are weighted and their
      scaled weights do not exceed the share, or a single one is unweighted and nothing is
      left of the others. The last pass keeps it as it is. */
  lemma SplitTotal(dests: seq<Destination>, share: nat, host: string)
    requires AllLocal(dests) && NonNegative(dests) && share <= 100
    ensures
      var split := DestWeights(SplitDests(dests, share, host));
      var scaled, unweighted := Sum(Weights.Scaled(DestWeights(dests), share)), Unweighted(dests);
      && (share == 100 ==> split == DestWeights(dests))
      && (share == 0 ==> Sum(split) == 100)
      && (0 < share < 100 ==> Sum(split) == scaled + share * unweighted + (100 - share))
      && (0 < share < 100 ==>
            (Sum(split) <= 100 <==> (unweighted == 0 && scaled <= share) || (unweighted == 1 && scaled == 0)))
      && (share < 100 ==> WithShares(split) == split)
  {
    if share == 100 {
      assert SplitDests(dests, share, host) == dests;
    } else {
      SplitSum(dests, share, host);
      ScaledNonNegative(DestWeights(dests), share);
      SharesAreMultiples(dests, share);
      ManyShares(share, Unweighted(dests));
    }
  }

  lemma ManyShares(share: nat, n: nat)
    ensures share * n >= 0
    ensures n >= 2 ==> share * n >= 2 * share
  {
    if n >= 2 {
      OneMore(n, share);
      OneMore(n - 1, share);
      ManyShares(share, n - 2);
    }
  }

  lemma SumThree(a: int, b: int, c: int)
    ensures Sum([a, b, c]) == a + b + c
  {
    assert [a, b, c][1..] == [b, c] && [b, c][1..] == [c] && [c][1..] == [];
    assert Sum([c]) == c;
    assert Sum([b, c]) == b + c;
  }

  /** A deployment and a rollout that are both unweighted, as during a migration, get the
      share twice. */
  lemma TwoUnweightedExceed(d: Destination, e: Destination, share: nat, host: string)
    requires IsLocal(d) && IsLocal(e) && d.weight == 0 && e.weight == 0 && 0 < share < 100
    ensures DestWeights(SplitDests([d, e], share, host)) == [share, share, 100 - share]
    ensures WithShares([share, share, 100 - share]) == [share, share, 100 - share]
  {
    assert IsLocal([d, e][0]);
    SumThree(share, share, 100 - share);
  }

  /** A single unweighted local service takes its region's share itself; the total is 100. */
  lemma UnweightedServiceConserves(d: Destination, share: nat, host: string)
    requires IsLocal(d) && d.weight == 0 && share < 100
    ensures DestWeights(SplitDests([d], share, host)) == [share, 100 - share]
  {
    assert IsLocal([d][0]);
  }

  // ----- what one policy does -----------------------------------------------------------------------------

  /** `weight` is that of the region's last target, or 0 when it has none. */
  ghost predicate TargetWeight(targets: seq<(string, int)>, region: string, weight: int) {
    || (exists i :: 0 <= i < |targets| && targets[i] == (region, weight) &&
          forall j :: i < j < |targets| ==> targets[j].0 != region)
    || ((forall j :: 0 <= j < |targets| ==> targets[j].0 != region) && weight == 0)
  }

  lemma {:induction false} WeightForIs(targets: seq<(string, int)>, region: string)
    ensures TargetWeight(targets, region, WeightFor(targets, region))
  {
    if targets != [] {
      var n := |targets| - 1;
      WeightForIs(targets[..n], region);
      assert forall j :: 0 <= j < n ==> targets[..n][j] == targets[j];
      if targets[n].0 == region {
        assert targets[n] == (region, WeightFor(targets, region));
      }
    }
  }

  lemma TargetWeightUnique(targets: seq<(string, int)>, region: string, weight: int)
    requires TargetWeight(targets, region, weight)
    ensures weight == WeightFor(targets, region)
  {
    WeightForIs(targets, region);
  }

  /** A Kubernetes service name. */
  predicate ServiceHost(host: string) {
    |host| >= 18 && host[|host| - 18..] == ".svc.cluster.local"
  }

  /** The split at a share, destination by destination. Only local services change. The mesh
      host gets the rest, last and on port 80, when there is a local service. */
  lemma SplitAt(dests: seq<Destination>, share: int, host: string)
    ensures
      var split := SplitDests(dests, share, host);
      && (forall k :: 0 <= k < |dests| ==> k < |split| && split[k].host == dests[k].host && split[k].port == dests[k].port)
      && (forall k :: 0 <= k < |dests| && (share == 100 || !ServiceHost(dests[k].host)) ==> split[k] == dests[k])
      && (forall k :: 0 <= k < |dests| && share != 100 && ServiceHost(dests[k].host) ==>
            if dests[k].weight == 0 || share == 0 then split[k].weight == share
            else VsMerge.IsShare(dests[k].weight * share, split[k].weight))
      && split[|dests|..] ==
         if share != 100 && exists k :: 0 <= k < |dests| && ServiceHost(dests[k].host)
         then [Destination(host, 80, if share < 100 then 100 - share else 0)] else []
  {
    assert forall d: Destination :: IsLocal(d) <==> ServiceHost(d.host);
    forall k | 0 <= k < |dests|
      ensures VsMerge.IsShare(dests[k].weight * share, VsMerge.Truncated(dests[k].weight * share, 100))
    {
      VsMerge.TruncatedIsShare(dests[k].weight * share);
    }
  }

  /** The routes one policy makes from one host. Nothing comes of a host without destinations
      or with a preview name. The default policy and the environment's own keep the host's
      name, any other puts its prefix in front. Between clusters a policy without targets
      routes prefixed names only. The destinations stay as they are under a topology policy,
      without targets, and between clusters; a failover policy splits them. */
  lemma OnePolicy(
      p: Policy, destinations: Destinations, fqdn: string, env: string, region: string, updateWeights: bool, weight: int)
    requires TargetWeight(p.targets, region, weight) && fqdn in destinations
    ensures
      var routes := AfterHosts([p], destinations, [fqdn], env, region, updateWeights);
      var own := p.dnsPrefix == "default" || p.dnsPrefix == env;
      var host := if own then fqdn else p.dnsPrefix + "." + fqdn;
      if destinations[fqdn].None? || "preview" <= fqdn || (own && p.targets == [] && !updateWeights) then routes == map[]
      else if p.topology || p.targets == [] || !updateWeights then routes == map[host := destinations[fqdn].value]
      else routes == map[host := SplitDests(destinations[fqdn].value, weight, host)]
  {
    WeightForIs(p.targets, region);
    assert [fqdn][..0] == [] && [p][..0] == [];
    assert AfterHosts([p], destinations, [], env, region, updateWeights) == map[];
    if !Skipped(destinations, fqdn) {
      var dests := destinations[fqdn].value;
      assert AfterPolicies([], map[], fqdn, dests, env, region, updateWeights) == map[];
      TargetWeightUnique(p.targets, region, weight);
    }
  }
}
