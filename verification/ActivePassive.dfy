/** Active/passive: the destination rule remembers the region that was first on its own, and
    in-cluster routing sends the traffic of every other region there. */
module ActivePassive {
  import opened Mesh
  import opened Prelude
  import opened Weights
  import opened GtpRouting

  datatype Distribute = Distribute(from: string, to: map<string, int>)

  datatype LocalitySetting = LocalitySetting(distribute: Option<seq<Distribute>>)

  /** The load-balancing part of a destination rule. */
  datatype Rule = Unbalanced | Balanced(locality: Option<LocalitySetting>)

  /** The first policy of a global traffic policy, as the destination rule sees it. */
  datatype TrafficPolicy = TrafficPolicy(failover: bool, targets: seq<(string, int)>)

  const WEST := "us-west-2"
  const EAST := "us-east-2"

  function Whole(region: string): Distribute {
    Distribute("*", map[region := 100])
  }

  /** A rule that sends everything to `region`. */
  function Carrying(region: string): Rule {
    Balanced(Some(LocalitySetting(Some([Whole(region)]))))
  }

  function KeptDistribution(rule: Rule): seq<Distribute> {
    if rule.Balanced? && rule.locality.Some? && rule.locality.value.distribute.Some?
    then rule.locality.value.distribute.value
    else []
  }

  function Distribution(endpoints: seq<string>, current: Option<Rule>): seq<Distribute> {
    if endpoints == [] then []
    else if |endpoints| > 1 then if current.None? then [] else KeptDistribution(current.value)
    else if current.None? || current.value == Balanced(None) then [Whole(endpoints[0])]
    else
      var kept := KeptDistribution(current.value);
      if |kept| == 1 && kept[0].from == "*" then kept else []
  }

  /** `endpoints` are the localities of the entry's endpoints. */
  method CalculateDistribution(endpoints: seq<string>, current: Option<Rule>) returns (distribute: seq<Distribute>)
    ensures distribute == Distribution(endpoints, current)
  {
    distribute := [];
    if |endpoints| == 1 {
      if current.Some? {
        if current.value.Balanced? {
          var setting := current.value.locality;
          if setting.None? {
            distribute := distribute + [Whole(endpoints[0])];
          }
          if setting.Some? && setting.value.distribute.Some?
             && |setting.value.distribute.value| == 1 && setting.value.distribute.value[0].from == "*" {
            distribute := distribute + setting.value.distribute.value;
          }
        }
      } else {
        distribute := distribute + [Whole(endpoints[0])];
      }
    } else if |endpoints| != 0 {
      if current.Some? && current.value.Balanced? && current.value.locality.Some?
         && current.value.locality.value.distribute.Some? {
        distribute := distribute + current.value.locality.value.distribute.value;
      }
    }
  }

  predicate MultiRegion(endpoints: seq<string>) {
    exists i, j :: 0 <= i < j < |endpoints| && endpoints[i] != endpoints[j]
  }

  method IsMultiRegion(endpoints: seq<string>) returns (multi: bool)
    ensures multi <==> MultiRegion(endpoints)
  {
    var regions: set<string> := {};
    for n := 0 to |endpoints|
      invariant regions == Elements(endpoints[..n])
    {
      assert endpoints[..n + 1] == endpoints[..n] + [endpoints[n]];
      regions := regions + {endpoints[n]};
    }
    assert endpoints[..|endpoints|] == endpoints;
    MultiRegionMeansTwo(endpoints);
    multi := |regions| > 1;
  }

  lemma MultiRegionMeansTwo(endpoints: seq<string>)
    ensures MultiRegion(endpoints) <==> |Elements(endpoints)| > 1
  {
    if MultiRegion(endpoints) {
      var i, j :| 0 <= i < j < |endpoints| && endpoints[i] != endpoints[j];
      SubsetSize({endpoints[i], endpoints[j]}, Elements(endpoints));
    } else if endpoints != [] {
      assert forall k :: 0 <= k < |endpoints| ==> endpoints[k] == endpoints[0];
      assert Elements(endpoints) == {endpoints[0]};
    }
  }

  /** A signed weight stored in an unsigned 32-bit field. */
  function Unsigned(weight: int): int {
    weight % 0x1_0000_0000
  }

  function Remote(locality: string): string {
    if locality == WEST then EAST else WEST
  }

  /** The nonzero targets, the last of a region winning. */
  function NonZero(targets: seq<(string, int)>): map<string, int> {
    if targets == [] then map[]
    else
      var n := |targets| - 1;
      if targets[n].1 == 0 then NonZero(targets[..n]) else NonZero(targets[..n])[targets[n].0 := Unsigned(targets[n].1)]
  }

  predicate LastNonZero(targets: seq<(string, int)>, i: int) {
    && 0 <= i < |targets| && targets[i].1 != 0
    && forall k :: i < k < |targets| && targets[k].0 == targets[i].0 ==> targets[k].1 == 0
  }

  /** The failover map has exactly the regions with a nonzero target. */
  lemma {:induction false} NonZeroRegions(targets: seq<(string, int)>, region: string)
    ensures region in NonZero(targets) <==> exists k :: 0 <= k < |targets| && targets[k].0 == region && targets[k].1 != 0
  {
    if targets != [] {
      var n := |targets| - 1;
      NonZeroRegions(targets[..n], region);
      assert forall k :: 0 <= k < n ==> targets[..n][k] == targets[k];
    }
  }

  /** Each has its last one, as an unsigned 32-bit weight. */
  lemma {:induction false} NonZeroWeight(targets: seq<(string, int)>, i: int)
    requires LastNonZero(targets, i)
    ensures targets[i].0 in NonZero(targets) && NonZero(targets)[targets[i].0] == targets[i].1 % 4294967296
  {
    var n := |targets| - 1;
    if i < n {
      NonZeroWeight(targets[..n], i);
    }
  }

  function PolicySetting(gtp: TrafficPolicy, locality: string): Option<LocalitySetting> {
    if gtp.targets == [] then None
    else if !gtp.failover then Some(LocalitySetting(None))
    else Some(LocalitySetting(Some([Distribute(locality + "/*", NonZero(gtp.targets))])))
  }

  function RuleFor(
      endpoints: seq<string>, current: Option<Rule>, locality: string, gtp: Option<TrafficPolicy>,
      activePassive: bool, pin: bool): Rule
  {
    var kept := if activePassive then Distribution(endpoints, current) else [];
    if locality == "" || gtp.None? then
      Balanced(if kept == [] then None else Some(LocalitySetting(Some(kept))))
    else if pin && MultiRegion(endpoints) then Carrying(Remote(locality))
    else Balanced(PolicySetting(gtp.value, locality))
  }

  /** The locality setting of a new destination rule. `activePassive` is off when the feature
      is, and for the deletion of a global traffic policy. */
  method GetDestinationRule(
      endpoints: seq<string>, current: Option<Rule>, locality: string, gtp: Option<TrafficPolicy>,
      activePassive: bool, pin: bool) returns (rule: Rule)
    ensures rule == RuleFor(endpoints, current, locality, gtp, activePassive, pin)
  {
    rule := Balanced(None);
    if activePassive {
      var distribute := CalculateDistribution(endpoints, current);
      if distribute != [] {
        rule := Balanced(Some(LocalitySetting(Some(distribute))));
      }
    }
    if locality == "" || gtp.None? {
      return;
    }
    if pin {
      var multi := IsMultiRegion(endpoints);
      if multi {
        return Carrying(Remote(locality));
      }
    }
    if gtp.value.targets == [] {
      return Balanced(None);
    }
    if !gtp.value.failover {
      return Balanced(Some(LocalitySetting(None)));
    }
    var targets := gtp.value.targets;
    var to: map<string, int> := map[];
    for i := 0 to |targets|
      invariant to == NonZero(targets[..i])
    {
      assert targets[..i + 1][..i] == targets[..i];
      if targets[i].1 != 0 {
        to := to[targets[i].0 := Unsigned(targets[i].1)];
      }
    }
    assert targets[..|targets|] == targets;
    rule := Balanced(Some(LocalitySetting(Some([Distribute(locality + "/*", to)]))));
  }

  /** Under a policy the rule forgets the active region: neither the current rule nor the
      feature matters. Unless it pins, a policy without targets leaves no setting, and a
      topology policy an empty one. */
  lemma PolicyOverridesRegion(
      endpoints: seq<string>, current: Option<Rule>, other: Option<Rule>, locality: string, gtp: TrafficPolicy, pin: bool)
    requires locality != ""
    ensures RuleFor(endpoints, current, locality, Some(gtp), true, pin) ==
            RuleFor(endpoints, other, locality, Some(gtp), false, pin)
    ensures !(pin && MultiRegion(endpoints)) && gtp.targets == [] ==>
            RuleFor(endpoints, current, locality, Some(gtp), true, pin) == Balanced(None)
    ensures !(pin && MultiRegion(endpoints)) && gtp.targets != [] && !gtp.failover ==>
            RuleFor(endpoints, current, locality, Some(gtp), true, pin) == Balanced(Some(LocalitySetting(None)))
  {
  }

  // ----- the region over a run ------------------------------------------------------------------

  /** The rule after an update without a global traffic policy. */
  function NextRule(endpoints: seq<string>, current: Option<Rule>): Rule {
    RuleFor(endpoints, current, "", None, true, false)
  }

  /** Without a policy, neither the cluster's locality nor pinning matters. */
  lemma WithoutPolicyOnlyTheEntryMatters(endpoints: seq<string>, current: Option<Rule>, locality: string, pin: bool)
    ensures RuleFor(endpoints, current, locality, None, true, pin) == NextRule(endpoints, current)
  {
  }

  /** What any setting of the current rule comes to: several endpoints keep its distribution
      whatever it is, a single one keeps only one from everywhere, and none drops it. */
  lemma DistributionKept(endpoints: seq<string>, distribute: seq<Distribute>)
    ensures
      var kept := Balanced(Some(LocalitySetting(Some(distribute))));
      var next := NextRule(endpoints, Some(kept));
      && (|endpoints| > 1 && distribute != [] ==> next == kept)
      && (|endpoints| == 1 && |distribute| == 1 && distribute[0].from == "*" ==> next == kept)
      && (|endpoints| == 1 && (|distribute| != 1 || distribute[0].from != "*") ==> next == Balanced(None))
      && (endpoints == [] || distribute == [] ==> next == Balanced(None))
    ensures NextRule(endpoints, Some(Unbalanced)) == Balanced(None)
    ensures NextRule(endpoints, Some(Balanced(Some(LocalitySetting(None))))) == Balanced(None)
  {
  }

  function After(entries: seq<seq<string>>): Option<Rule> {
    if entries == [] then None
    else Some(NextRule(entries[|entries| - 1], After(entries[..|entries| - 1])))
  }

  /** Entry `i` has one endpoint, no entry from `i` on is empty, and an earlier entry with
      one endpoint was followed by an empty one. */
  ghost predicate FixedAt(entries: seq<seq<string>>, i: nat) {
    && i < |entries| && |entries[i]| == 1
    && (forall j :: i <= j < |entries| ==> entries[j] != [])
    && (forall j :: 0 <= j < i && |entries[j]| == 1 ==> EmptyBetween(entries, j, i))
  }

  ghost predicate EmptyBetween(entries: seq<seq<string>>, j: nat, i: nat) {
    exists k :: j < k < i && k < |entries| && entries[k] == []
  }

  ghost predicate Settled(entries: seq<seq<string>>, i: Option<nat>) {
    match i
    case Some(n) => FixedAt(entries, n)
    case None => forall j :: 0 <= j < |entries| && |entries[j]| == 1 ==> EmptyBetween(entries, j, |entries|)
  }

  function RuleAt(entries: seq<seq<string>>, i: Option<nat>): Rule
    requires i.Some? ==> i.value < |entries| && |entries[i.value]| == 1
  {
    match i
    case Some(n) => Carrying(entries[n][0])
    case None => Balanced(None)
  }

  lemma EmptyBetweenGrows(entries: seq<seq<string>>, j: nat, i: nat, m: nat)
    requires i <= m <= |entries| && EmptyBetween(entries[..m], j, i)
    ensures forall n :: i <= n ==> EmptyBetween(entries, j, n)
  {
    var k :| j < k < i && k < m && entries[..m][k] == [];
    assert entries[k] == [];
  }

  /** The rule after any run: it carries the region of the first one-endpoint entry since the
      last empty entry, and no region when there is no such entry. */
  lemma {:induction false} RunFixesRegion(entries: seq<seq<string>>) returns (i: Option<nat>)
    requires entries != []
    ensures Settled(entries, i) && After(entries) == Some(RuleAt(entries, i))
  {
    var n := |entries| - 1;
    var last, prefix := entries[n], entries[..n];
    i := None;
    if n > 0 {
      i := RunFixesRegion(prefix);
    }
    if last == [] {
      i := None;
    } else if i.Some? {
      forall j | 0 <= j < i.value && |entries[j]| == 1
        ensures EmptyBetween(entries, j, i.value)
      {
        assert prefix[j] == entries[j];
        EmptyBetweenGrows(entries, j, i.value, n);
      }
      assert prefix[i.value] == entries[i.value];
      assert forall j :: i.value <= j < n ==> prefix[j] == entries[j];
    } else {
      forall j | 0 <= j < n && |entries[j]| == 1
        ensures EmptyBetween(entries, j, n) && EmptyBetween(entries, j, n + 1)
      {
        assert prefix[j] == entries[j];
        EmptyBetweenGrows(entries, j, n, n);
      }
      if |last| == 1 {
        i := Some(n);
      }
    }
  }

  /** Over non-empty entries the first one-endpoint entry fixes the region for good. */
  lemma FirstSingleEntryWins(entries: seq<seq<string>>, first: nat)
    requires forall j :: 0 <= j < |entries| ==> entries[j] != []
    requires first < |entries| && |entries[first]| == 1
    requires forall j :: 0 <= j < first ==> |entries[j]| != 1
    ensures After(entries) == Some(Carrying(entries[first][0]))
  {
    var i := RunFixesRegion(entries);
    assert forall n: nat :: !EmptyBetween(entries, first, n);
  }

  /** An update keeps a fixed region exactly when its entry is not empty. */
  lemma OnlyAnEmptyEntryForgets(endpoints: seq<string>, region: string)
    ensures NextRule(endpoints, Some(Carrying(region))) == Carrying(region) <==> endpoints != []
    ensures NextRule([], Some(Carrying(region))) == Balanced(None)
  {
  }

  // ----- the region over all source clusters ---------------------------------------------------------

  type Rules = map<string, Rule>

  /** One cluster's update; `sources` are the workload's clusters in the order they are tried. */
  datatype Update = Update(cluster: string, endpoints: seq<string>, isSource: bool, sources: seq<string>)

  function FirstRule(rules: Rules, sources: seq<string>): Option<Rule> {
    if sources == [] then None
    else if sources[0] in rules then Some(rules[sources[0]])
    else FirstRule(rules, sources[1..])
  }

  function CurrentRule(rules: Rules, u: Update): Option<Rule> {
    if u.cluster in rules then Some(rules[u.cluster])
    else if u.isSource then FirstRule(rules, u.sources)
    else None
  }

  /** The first source cluster that has a rule lends it. */
  lemma {:induction false} FirstRuleIs(rules: Rules, sources: seq<string>, i: nat)
    requires i < |sources| && sources[i] in rules && forall k :: 0 <= k < i ==> sources[k] !in rules
    ensures FirstRule(rules, sources) == Some(rules[sources[i]])
  {
    if i > 0 {
      assert forall k :: 0 <= k < i - 1 ==> sources[1..][k] !in rules;
      FirstRuleIs(rules, sources[1..], i - 1);
    }
  }

  lemma {:induction false} NoRuleFound(rules: Rules, sources: seq<string>)
    requires forall k :: 0 <= k < |sources| ==> sources[k] !in rules
    ensures FirstRule(rules, sources) == None
  {
    if sources != [] {
      NoRuleFound(rules, sources[1..]);
    }
  }

  /** An update starts from the cluster's own rule; a source cluster without one borrows from
      the first source cluster that has one, other clusters do not. */
  lemma CurrentRuleIs(rules: Rules, u: Update, i: nat)
    requires i <= |u.sources| && forall k :: 0 <= k < i ==> u.sources[k] !in rules
    requires i < |u.sources| ==> u.sources[i] in rules
    ensures CurrentRule(rules, u) ==
            if u.cluster in rules then Some(rules[u.cluster])
            else if u.isSource && i < |u.sources| then Some(rules[u.sources[i]])
            else None
  {
    if i < |u.sources| {
      FirstRuleIs(rules, u.sources, i);
    } else {
      NoRuleFound(rules, u.sources);
    }
  }

  method GetCurrentRule(rules: Rules, u: Update) returns (current: Option<Rule>)
    ensures current == CurrentRule(rules, u)
  {
    current := if u.cluster in rules then Some(rules[u.cluster]) else None;
    if current.None? && u.isSource {
      for i := 0 to |u.sources|
        invariant current.None?
        invariant FirstRule(rules, u.sources) == FirstRule(rules, u.sources[i..])
      {
        if u.sources[i] in rules {
          current := Some(rules[u.sources[i]]);
          break;
        }
      }
    }
  }

  function Updated(rules: Rules, u: Update): Rules {
    rules[u.cluster := NextRule(u.endpoints, CurrentRule(rules, u))]
  }

  function UpdatedAll(rules: Rules, us: seq<Update>): Rules {
    if us == [] then rules
    else
      var before := UpdatedAll(rules, us[..|us| - 1]);
      Updated(before, us[|us| - 1])
  }

  /** The updated cluster has a rule, or one of the source clusters has. */
  predicate FindsRule(rules: Rules, u: Update) {
    u.cluster in rules || (u.isSource && exists i :: 0 <= i < |u.sources| && u.sources[i] in rules)
  }

  predicate AllCarry(rules: Rules, region: string) {
    forall c :: c in rules ==> rules[c] == Carrying(region)
  }

  lemma {:induction false} FirstRuleFound(rules: Rules, sources: seq<string>, region: string)
    requires AllCarry(rules, region)
    requires exists i :: 0 <= i < |sources| && sources[i] in rules
    ensures FirstRule(rules, sources) == Some(Carrying(region))
  {
    if sources[0] !in rules {
      var i :| 0 <= i < |sources| && sources[i] in rules;
      assert sources[1..][i - 1] in rules;
      FirstRuleFound(rules, sources[1..], region);
    }
  }

  lemma StepCarries(rules: Rules, u: Update, region: string)
    requires AllCarry(rules, region) && FindsRule(rules, u) && u.endpoints != []
    ensures AllCarry(Updated(rules, u), region)
  {
    if u.cluster !in rules {
      FirstRuleFound(rules, u.sources, region);
    }
    OnlyAnEmptyEntryForgets(u.endpoints, region);
  }

  lemma FirstUpdateCarries(u: Update, region: string)
    requires u.endpoints == [region]
    ensures AllCarry(UpdatedAll(map[], [u]), region)
  {
    NothingFound(u.sources);
    assert [u][..0] == [];
    assert UpdatedAll(map[], [u]) == Updated(map[], u);
  }

  /** After the first update, each one found a rule to start from. */
  ghost predicate Linked(us: seq<Update>) {
    forall k :: 0 < k < |us| ==> FindsRule(UpdatedAll(map[], us[..k]), us[k])
  }

  lemma LinkedPrefix(us: seq<Update>, n: nat)
    requires n <= |us| && Linked(us)
    ensures Linked(us[..n])
  {
    forall k | 0 < k < n
      ensures FindsRule(UpdatedAll(map[], us[..n][..k]), us[..n][k])
    {
      assert us[..n][..k] == us[..k];
    }
  }

  /** A region fixed in the first cluster spreads: every cluster updated later, in any order
      and with any non-empty entries, carries it as well, so long as it finds a rule. */
  lemma {:induction false} RegionSpreads(us: seq<Update>, region: string)
    requires us != [] && us[0].endpoints == [region]
    requires forall k :: 0 <= k < |us| ==> us[k].endpoints != []
    requires Linked(us)
    ensures AllCarry(UpdatedAll(map[], us), region)
  {
    var n := |us| - 1;
    if n == 0 {
      FirstUpdateCarries(us[0], region);
      assert us == [us[0]];
    } else {
      LinkedPrefix(us, n);
      RegionSpreads(us[..n], region);
      StepCarries(UpdatedAll(map[], us[..n]), us[n], region);
    }
  }

  lemma {:induction false} NothingFound(sources: seq<string>)
    ensures FirstRule(map[], sources) == None
  {
    if sources != [] {
      NothingFound(sources[1..]);
    }
  }

  // ----- in-cluster routing -----------------------------------------------------------------------

  /** Everything fails over from `own` to `active`. */
  function FailTo(own: string, active: string): seq<Policy> {
    [Policy(DEFAULT, false, [(own, 0), (active, 100)])]
  }

  /** The regions the cached rule names, when the cluster should look for another one. */
  function Candidates(entry: Option<seq<string>>, rule: Option<Rule>, own: string): set<string> {
    if entry.None? || !MultiRegion(entry.value) || rule.None? then {}
    else
      var kept := KeptDistribution(rule.value);
      if |kept| != 1 || own in kept[0].to then {} else kept[0].to.Keys
  }

  /** One of the candidates becomes the active region, unless it is the empty name. */
  ghost predicate FailoverChoice(candidates: set<string>, own: string, policies: Option<seq<Policy>>) {
    if candidates == {} then policies == None
    else exists active :: active in candidates && policies == if active == "" then None else Some(FailTo(own, active))
  }

  method DoActivePassive(entry: Option<seq<string>>, rule: Option<Rule>, own: string)
    returns (policies: Option<seq<Policy>>)
    ensures FailoverChoice(Candidates(entry, rule, own), own, policies)
  {
    policies := None;
    if entry.None? {
      return;
    }
    var multi := IsMultiRegion(entry.value);
    if !multi || rule.None? {
      return;
    }
    if rule.value.Unbalanced? || rule.value.locality.None? || rule.value.locality.value.distribute.None? {
      return;
    }
    var distribution := rule.value.locality.value.distribute.value;
    if |distribution| != 1 || own in distribution[0].to {
      return;
    }
    var active, left := "", distribution[0].to.Keys;
    while left != {}
      invariant left <= distribution[0].to.Keys
      invariant left != distribution[0].to.Keys ==> active in distribution[0].to.Keys
      invariant left == distribution[0].to.Keys ==> active == ""
    {
      active :| active in left;
      left := left - {active};
    }
    if active != "" {
      policies := Some(FailTo(own, active));
    }
  }

  function Reweighted(dests: Option<seq<Destination>>): Option<seq<Destination>> {
    if dests.None? then None
    else
      var ws := WithShares(DestWeights(dests.value));
      Some(seq(|dests.value|, i requires 0 <= i < |dests.value| => dests.value[i].(weight := WeightAt(ws, i))))
  }

  function WeightAt(ws: seq<int>, i: nat): int {
    if i < |ws| then ws[i] else 0
  }

  function Overridden(destinations: Destinations, routes: Routes): Destinations {
    map h | h in destinations.Keys + routes.Keys :: if h in routes then Some(routes[h]) else destinations[h]
  }

  function Processed(
      policies: Option<seq<Policy>>, destinations: Destinations, order: seq<string>, env: string, own: string,
      inCluster: bool): Destinations
  {
    var routed := if policies.None? then destinations
                  else Overridden(destinations, AfterHosts(policies.value, destinations, order, env, own, inCluster));
    map h | h in routed :: Reweighted(routed[h])
  }

  /** The identity's global traffic policy, or else the active/passive one for in-cluster routes. */
  ghost predicate Chosen(
      gtp: Option<seq<Policy>>, entry: Option<seq<string>>, rule: Option<Rule>, own: string, activePassive: bool,
      inCluster: bool, policies: Option<seq<Policy>>)
  {
    if gtp.None? && inCluster && activePassive then FailoverChoice(Candidates(entry, rule, own), own, policies)
    else policies == gtp
  }

  method ReweightAll(destinations: Destinations) returns (result: Destinations)
    ensures result == map h | h in destinations :: Reweighted(destinations[h])
  {
    result := destinations;
    var left := destinations.Keys;
    while left != {}
      invariant left <= destinations.Keys && result.Keys == destinations.Keys
      invariant forall h :: h in destinations ==>
                  result[h] == if h in left then destinations[h] else Reweighted(destinations[h])
    {
      var h :| h in left;
      result := result[h := Reweighted(destinations[h])];
      left := left - {h};
    }
  }

  /** `order` is the order the destination map is walked in. */
  method ProcessGtpAndAddWeights(
      gtp: Option<seq<Policy>>, entry: Option<seq<string>>, rule: Option<Rule>, destinations: Destinations,
      order: seq<string>, env: string, own: string, activePassive: bool, inCluster: bool)
    returns (result: Destinations)
    ensures exists policies ::
      && Chosen(gtp, entry, rule, own, activePassive, inCluster, policies)
      && result == Processed(policies, destinations, order, env, own, inCluster)
  {
    var chosen := gtp;
    if gtp.None? && inCluster && activePassive {
      chosen := DoActivePassive(entry, rule, own);
    }
    assert Chosen(gtp, entry, rule, own, activePassive, inCluster, chosen);
    result := destinations;
    if chosen.Some? {
      var routes := DestinationsForGtp(chosen.value, destinations, order, env, own, inCluster);
      var left := routes.Keys;
      while left != {}
        invariant left <= routes.Keys
        invariant result.Keys == destinations.Keys + (routes.Keys - left)
        invariant forall h :: h in result ==> 
                    result[h] == if h in routes && h !in left then Some(routes[h]) else destinations[h]
      {
        var h :| h in left;
        result := result[h := Some(routes[h])];
        left := left - {h};
      }
      assert result == Overridden(destinations, routes);
    }
    result := ReweightAll(result);
  }

  /** Hosts that are new under the chosen policies join the known ones, routes replace the known
      destinations, and the last pass changes weights only. */
  lemma ProcessedHosts(
      policies: seq<Policy>, destinations: Destinations, order: seq<string>, env: string, own: string, inCluster: bool)
    ensures
      var routes := AfterHosts(policies, destinations, order, env, own, inCluster);
      var result := Processed(Some(policies), destinations, order, env, own, inCluster);
      && (forall h :: h in result <==> h in destinations || h in routes)
      && forall h :: h in result ==>
           var dests := if h in routes then Some(routes[h]) else destinations[h];
           && (dests.Some? <==> result[h].Some?)
           && (dests.Some? ==>
                 && |result[h].value| == |dests.value|
                 && DestWeights(result[h].value) == WithShares(DestWeights(dests.value))
                 && forall k :: 0 <= k < |dests.value| ==>
                      result[h].value[k].(weight := 0) == dests.value[k].(weight := 0))
  {
    var routes := AfterHosts(policies, destinations, order, env, own, inCluster);
    var result := Processed(Some(policies), destinations, order, env, own, inCluster);
    forall h | h in result && (h in routes || destinations[h].Some?)
      ensures
        var dests := if h in routes then routes[h] else destinations[h].value;
        result[h].Some? && DestWeights(result[h].value) == WithShares(DestWeights(dests))
    {
      var dests := if h in routes then routes[h] else destinations[h].value;
      if |dests| > 1 {
        SharesAreFair(|dests|);
      }
    }
  }

  /** A cluster fails over exactly when its workload is multi-region and its rule has a single
      distribution, which does not name the own region: everything goes to a region it names. */
  lemma FailsOverExactly(entry: Option<seq<string>>, rule: Option<Rule>, own: string, policies: Option<seq<Policy>>)
    requires FailoverChoice(Candidates(entry, rule, own), own, policies)
    ensures policies.Some? ==> exists d, active ::
      && rule == Some(Balanced(Some(LocalitySetting(Some([d])))))
      && own !in d.to && active in d.to && active != ""
      && policies.value == [Policy("default", false, [(own, 0), (active, 100)])]
    ensures policies.Some? ==> entry.Some? && MultiRegion(entry.value)
    ensures forall d ::
      (&& entry.Some? && MultiRegion(entry.value) && rule == Some(Balanced(Some(LocalitySetting(Some([d])))))
       && own !in d.to && d.to != map[] && "" !in d.to)
      ==> policies.Some?
  {
    if policies.Some? {
      var kept := KeptDistribution(rule.value);
      assert kept == [kept[0]];
    }
  }

  /** Without a global traffic policy the routes between clusters, and all routes when the
      feature is off, only get their missing shares. With one, its policies decide. */
  lemma OnlyInClusterFailsOver(
      gtp: Option<seq<Policy>>, entry: Option<seq<string>>, rule: Option<Rule>, destinations: Destinations,
      order: seq<string>, env: string, own: string, activePassive: bool, inCluster: bool, policies: Option<seq<Policy>>)
    requires Chosen(gtp, entry, rule, own, activePassive, inCluster, policies)
    requires gtp.Some? || !activePassive || !inCluster
    ensures policies == gtp
    ensures gtp.None? ==>
      var result := Processed(policies, destinations, order, env, own, inCluster);
      result.Keys == destinations.Keys && forall h :: h in destinations ==> result[h] == Reweighted(destinations[h])
  {
  }

  /** With the default failover policy the routes are exactly the non-skipped hosts walked. */
  lemma {:induction false} FailoverRoutes(destinations: Destinations, order: seq<string>, env: string, own: string, active: string)
    ensures
      var routes := AfterHosts(FailTo(own, active), destinations, order, env, own, true);
      forall h :: (h in routes <==> h in order && !Skipped(destinations, h))
               && (h in routes ==> routes[h] == SplitDests(destinations[h].value, WeightFor([(own, 0), (active, 100)], own), h))
  {
    var policies := FailTo(own, active);
    if order != [] {
      var n := |order| - 1;
      FailoverRoutes(destinations, order[..n], env, own, active);
      assert order == order[..n] + [order[n]];
      if !Skipped(destinations, order[n]) {
        var before := AfterHosts(policies, destinations, order[..n], env, own, true);
        assert policies[..0] == [];
        assert AfterPolicies(policies[..0], before, order[n], destinations[order[n]].value, env, own, true) == before;
      }
    }
  }

  /** A destination list with the mesh host at 100 keeps its weights in the last pass. */
  lemma FailoverSurvivesWeights(dests: seq<Destination>, host: string)
    requires HasLocal(dests) && NonNegative(dests)
    ensures Reweighted(Some(SplitDests(dests, 0, host))) == Some(SplitDests(dests, 0, host))
  {
    var split, scaled := SplitDests(dests, 0, host), ScaledDests(dests, 0);
    assert split == scaled + [MeshDestination(host, 100)];
    assert DestWeights(split) == DestWeights(scaled) + [100];
    SumAppend(DestWeights(scaled), [100]);
    NonNegativeSum(DestWeights(scaled));
    assert Reweighted(Some(split)).value == split;
  }

  /** What in-cluster routing makes of one host's destinations. */
  predicate SentToMesh(before: seq<Destination>, after: seq<Destination>, host: string) {
    && |after| == |before| + 1 && after[|before|] == Destination(host, 80, 100)
    && forall i :: 0 <= i < |before| ==>
         after[i] == if IsLocal(before[i]) then before[i].(weight := 0) else before[i]
  }

  /** In-cluster routing once the rule carries an active region and there is no policy: a
      cluster that is passive, in a multi-region workload, gives each local service of every
      non-preview host weight 0 and the mesh host 100; all other clusters and hosts only get
      even shares where a total is missing. */
  lemma InClusterTraffic(
      entry: seq<string>, active: string, destinations: Destinations, order: seq<string>, env: string, own: string,
      policies: Option<seq<Policy>>, h: string)
    requires forall x :: x in destinations <==> x in order
    requires Chosen(None, Some(entry), Some(Carrying(active)), own, true, true, policies)
    requires h in destinations
    ensures
      var result := Processed(policies, destinations, order, env, own, true);
      var passive := MultiRegion(entry) && own != active && active != "";
      && result.Keys == destinations.Keys
      && (passive && destinations[h].Some? && !(PREVIEW_PREFIX <= h)
          && HasLocal(destinations[h].value) && NonNegative(destinations[h].value)
          ==> result[h].Some? && SentToMesh(destinations[h].value, result[h].value, h))
      && (!passive || PREVIEW_PREFIX <= h || destinations[h].None? || !HasLocal(destinations[h].value)
          ==> result[h] == Reweighted(destinations[h]))
  {
    var candidates := Candidates(Some(entry), Some(Carrying(active)), own);
    assert map[active := 100].Keys == {active};
    assert candidates == if MultiRegion(entry) && own != active then {active} else {};
    if MultiRegion(entry) && own != active && active != "" {
      assert policies == Some(FailTo(own, active));
      FailoverRoutes(destinations, order, env, own, active);
      assert [(own, 0), (active, 100)][..1] == [(own, 0)];
      assert WeightFor([(own, 0), (active, 100)], own) == 0;
      if !Skipped(destinations, h) {
        var dests := destinations[h].value;
        if HasLocal(dests) {
          if NonNegative(dests) {
            FailoverSurvivesWeights(dests, h);
          }
        } else {
          assert SplitDests(dests, 0, h) == dests;
        }
      }
    } else {
      assert policies == None;
    }
  }

  /** The two halves together: from the first one-endpoint entry of a run of non-empty entries
      on, its region decides where the in-cluster traffic of every cluster goes. */
  lemma FirstRegionTakesTheTraffic(
      entries: seq<seq<string>>, first: nat, entry: seq<string>, destinations: Destinations, order: seq<string>,
      env: string, own: string, policies: Option<seq<Policy>>, h: string)
    requires forall j :: 0 <= j < |entries| ==> entries[j] != []
    requires first < |entries| && |entries[first]| == 1 && forall j :: 0 <= j < first ==> |entries[j]| != 1
    requires forall x :: x in destinations <==> x in order
    requires Chosen(None, Some(entry), After(entries), own, true, true, policies)
    requires h in destinations && destinations[h].Some? && !(PREVIEW_PREFIX <= h)
    requires HasLocal(destinations[h].value) && NonNegative(destinations[h].value)
    requires MultiRegion(entry) && entries[first][0] != ""
    ensures
      var result := Processed(policies, destinations, order, env, own, true);
      && h in result && result[h].Some?
      && if own == entries[first][0] then result[h] == Reweighted(destinations[h])
         else SentToMesh(destinations[h].value, result[h].value, h)
  {
    FirstSingleEntryWins(entries, first);
    InClusterTraffic(entry, entries[first][0], destinations, order, env, own, policies, h);
  }
}
