/** Where the traffic goes once a region has spread to all clusters, and what traffic policies
    that come and go do to a remembered region. */
module ActivePassiveRuns {
  import opened Mesh
  import opened Prelude
  import opened GtpRouting
  import opened ActivePassive

  // ----- the traffic of every cluster ---------------------------------------------------------------

  /** After any linked run of updates that starts with a one-endpoint entry, every cluster that
      has a rule, in the region of that entry, keeps the in-cluster traffic of a multi-region
      workload to itself, and outside it sends all of it there. */
  lemma RegionTakesTheTraffic(
      us: seq<Update>, region: string, cluster: string, entry: seq<string>, destinations: Destinations, order: seq<string>,
      env: string, own: string, policies: Option<seq<Policy>>, h: string)
    requires us != [] && us[0].endpoints == [region] && region != ""
    requires forall k :: 0 <= k < |us| ==> us[k].endpoints != []
    requires Linked(us) && cluster in UpdatedAll(map[], us)
    requires forall x :: x in destinations <==> x in order
    requires Chosen(None, Some(entry), Some(UpdatedAll(map[], us)[cluster]), own, true, true, policies)
    requires h in destinations && destinations[h].Some? && !(PREVIEW_PREFIX <= h)
    requires HasLocal(destinations[h].value) && NonNegative(destinations[h].value)
    requires MultiRegion(entry)
    ensures
      var result := Processed(policies, destinations, order, env, own, true);
      && h in result && result[h].Some?
      && if own == region then result[h] == Reweighted(destinations[h])
         else SentToMesh(destinations[h].value, result[h].value, h)
  {
    RegionSpreads(us, region);
    InClusterTraffic(entry, region, destinations, order, env, own, policies, h);
  }

  // ----- policies that come and go --------------------------------------------------------------------

  /** One update of a cluster's rule; `on` is off for the deletion of a traffic policy. */
  datatype Event = Event(endpoints: seq<string>, locality: string, gtp: Option<TrafficPolicy>, on: bool, pin: bool)

  function RuleAfter(e: Event, current: Option<Rule>): Rule {
    RuleFor(e.endpoints, current, e.locality, e.gtp, e.on, e.pin)
  }

  function AfterEvents(es: seq<Event>): Option<Rule> {
    if es == [] then None
    else Some(RuleAfter(es[|es| - 1], AfterEvents(es[..|es| - 1])))
  }

  /** A policy decides the rule. */
  predicate Policed(e: Event) {
    e.locality != "" && e.gtp.Some?
  }

  /** No policy decides, and the region is not looked at or lost. */
  predicate Resets(e: Event) {
    !Policed(e) && (!e.on || e.endpoints == [])
  }

  predicate Plain(e: Event) {
    !Policed(e) && e.on && e.endpoints != []
  }

  lemma EventForgets(e: Event, current: Option<Rule>)
    requires Policed(e) || Resets(e)
    ensures RuleAfter(e, current) == RuleAfter(e, None)
    ensures Resets(e) ==> RuleAfter(e, current) == Balanced(None)
  {
    if Policed(e) && e.on {
      PolicyOverridesRegion(e.endpoints, current, None, e.locality, e.gtp.value, e.pin);
      PolicyOverridesRegion(e.endpoints, None, None, e.locality, e.gtp.value, e.pin);
    }
  }

  /** Nothing before the latest policy or reset matters. */
  lemma {:induction false} HistoryForgotten(es: seq<Event>, r: nat)
    requires r < |es| && (Policed(es[r]) || Resets(es[r]))
    ensures AfterEvents(es) == AfterEvents(es[r..])
  {
    var n := |es| - 1;
    if r == n {
      assert es[r..] == [es[r]] && [es[r]][..0] == [];
      EventForgets(es[r], AfterEvents(es[..n]));
    } else {
      HistoryForgotten(es[..n], r);
      assert es[..n][r..] == es[r..][..|es[r..]| - 1];
    }
  }

  function EndpointsOf(es: seq<Event>): seq<seq<string>> {
    seq(|es|, i requires 0 <= i < |es| => es[i].endpoints)
  }

  /** Plain events after a reset count as if the run had started there. */
  lemma {:induction false} PlainAfterReset(es: seq<Event>)
    requires es != [] && Resets(es[0]) && forall i :: 0 < i < |es| ==> Plain(es[i])
    ensures AfterEvents(es) == After([[]] + EndpointsOf(es[1..]))
  {
    var n := |es| - 1;
    if n == 0 {
      assert [[]] + EndpointsOf(es[1..]) == [[]];
      assert es[..0] == [];
      EventForgets(es[0], None);
      var start: seq<seq<string>> := [[]];
      assert start[..0] == [];
    } else {
      PlainAfterReset(es[..n]);
      var entries := [[]] + EndpointsOf(es[1..]);
      assert entries[..|entries| - 1] == [[]] + EndpointsOf(es[..n][1..]);
      assert entries[|entries| - 1] == es[n].endpoints;
      PlainIsNext(es[n], AfterEvents(es[..n]));
    }
  }

  lemma PlainIsNext(e: Event, current: Option<Rule>)
    requires Plain(e)
    ensures RuleAfter(e, current) == NextRule(e.endpoints, current)
  {
    if e.gtp.None? {
      WithoutPolicyOnlyTheEntryMatters(e.endpoints, current, e.locality, e.pin);
    }
  }

  /** `f` is the first one-endpoint entry after position `r`, if there is one. */
  ghost predicate FirstSingle(entries: seq<seq<string>>, r: nat, f: Option<nat>) {
    match f
    case Some(n) => r < n < |entries| && |entries[n]| == 1 && forall i :: r < i < n ==> |entries[i]| != 1
    case None => forall i :: r < i < |entries| ==> |entries[i]| != 1
  }

  /** After an empty entry followed by others, the first one-endpoint entry fixes the region. */
  lemma RegionSinceEmpty(entries: seq<seq<string>>) returns (f: Option<nat>)
    requires entries != [] && entries[0] == [] && forall i :: 0 < i < |entries| ==> entries[i] != []
    ensures FirstSingle(entries, 0, f) && After(entries) == Some(RuleAt(entries, f))
  {
    f := RunFixesRegion(entries);
    assert forall j: nat, m: nat :: 0 < j ==> !EmptyBetween(entries, j, m);
  }

  function SinceReset(es: seq<Event>, r: nat): seq<seq<string>>
    requires r < |es|
  {
    [[]] + EndpointsOf(es[r..][1..])
  }

  lemma SinceResetIs(es: seq<Event>, r: nat)
    requires r < |es|
    ensures |SinceReset(es, r)| == |es| - r
    ensures forall k :: 0 < k < |es| - r ==> SinceReset(es, r)[k] == es[r + k].endpoints
  {
  }

  /** After a policy has been deleted (or at an empty entry), the remembered region is gone, and
      the first one-endpoint entry since then fixes the region anew. */
  lemma RegionAfterReset(es: seq<Event>, r: nat) returns (f: Option<nat>)
    requires r < |es| && Resets(es[r]) && forall i :: r < i < |es| ==> Plain(es[i])
    ensures FirstSingle(EndpointsOf(es), r, f)
    ensures AfterEvents(es) == Some(if f.Some? then Carrying(es[f.value].endpoints[0]) else Balanced(None))
  {
    HistoryForgotten(es, r);
    PlainAfterReset(es[r..]);
    SinceResetIs(es, r);
    var g := RegionSinceEmpty(SinceReset(es, r));
    f := if g.Some? then Some(r + g.value) else None;
    SinglesMatch(es, r, g);
  }

  lemma SinglesMatch(es: seq<Event>, r: nat, g: Option<nat>)
    requires r < |es| && FirstSingle(SinceReset(es, r), 0, g)
    ensures FirstSingle(EndpointsOf(es), r, if g.Some? then Some(r + g.value) else None)
  {
    SinceResetIs(es, r);
    forall i | r < i < |es|
      ensures EndpointsOf(es)[i] == SinceReset(es, r)[i - r]
    {
    }
  }

  /** A rule pinned by a policy outlives it: plain events keep its region, the other one of the
      two, until a reset. */
  lemma {:induction false} PinnedRegionStays(es: seq<Event>, r: nat)
    requires r < |es| && Policed(es[r]) && es[r].pin && MultiRegion(es[r].endpoints)
    requires forall i :: r < i < |es| ==> Plain(es[i])
    ensures
      var other := if es[r].locality == "us-west-2" then "us-east-2" else "us-west-2";
      AfterEvents(es) == Some(Balanced(Some(LocalitySetting(Some([Distribute("*", map[other := 100])])))))
  {
    var n := |es| - 1;
    if r < n {
      PinnedRegionStays(es[..n], r);
      PlainIsNext(es[n], AfterEvents(es[..n]));
      OnlyAnEmptyEntryForgets(es[n].endpoints, Remote(es[r].locality));
    }
  }

  /** The rule of a failover policy. */
  function FailoverRule(e: Event): Rule
    requires Policed(e)
  {
    Balanced(PolicySetting(e.gtp.value, e.locality))
  }

  predicate IsFailover(e: Event) {
    Policed(e) && !(e.pin && MultiRegion(e.endpoints)) && e.gtp.value.failover && e.gtp.value.targets != []
  }

  /** So does the distribution of a failover policy, exactly until the first one-endpoint entry. */
  lemma {:induction false} FailoverLingers(es: seq<Event>, r: nat)
    requires r < |es| && IsFailover(es[r]) && forall i :: r < i < |es| ==> Plain(es[i])
    ensures AfterEvents(es) == Some(FailoverRule(es[r])) <==> forall i :: r < i < |es| ==> |es[i].endpoints| > 1
    ensures (exists i :: r < i < |es| && |es[i].endpoints| == 1) ==>
              AfterEvents(es) == Some(Balanced(None)) || exists x :: AfterEvents(es) == Some(Carrying(x))
  {
    var n := |es| - 1;
    NotEverywhere(es[r]);
    if r < n {
      FailoverLingers(es[..n], r);
      assert forall i :: r < i < n ==> es[..n][i] == es[i];
      var before := AfterEvents(es[..n]);
      PlainIsNext(es[n], before);
      if before == Some(FailoverRule(es[r])) {
        LingeringStep(es[n].endpoints, es[r]);
      } else if x :| before == Some(Carrying(x)) {
        OnlyAnEmptyEntryForgets(es[n].endpoints, x);
        assert AfterEvents(es) == Some(Carrying(x));
      } else {
        assert before == Some(Balanced(None));
        if |es[n].endpoints| == 1 {
          assert AfterEvents(es) == Some(Carrying(es[n].endpoints[0]));
        }
      }
    }
  }

  /** It sends what comes from the cluster's own region to the regions that have a nonzero
      target, by the last weight of each. */
  lemma FailoverRuleIs(e: Event) returns (to: map<string, int>)
    requires IsFailover(e)
    ensures RuleAfter(e, None) == FailoverRule(e)
    ensures FailoverRule(e) == Balanced(Some(LocalitySetting(Some([Distribute(e.locality + "/*", to)]))))
    ensures
      var targets := e.gtp.value.targets;
      && (forall r :: r in to <==> exists k :: 0 <= k < |targets| && targets[k].0 == r && targets[k].1 != 0)
      && forall i :: LastNonZero(targets, i) ==> to[targets[i].0] == targets[i].1 % 4294967296
  {
    to := NonZero(e.gtp.value.targets);
    forall r
      ensures r in to <==> exists k :: 0 <= k < |e.gtp.value.targets| && e.gtp.value.targets[k].0 == r && e.gtp.value.targets[k].1 != 0
    {
      NonZeroRegions(e.gtp.value.targets, r);
    }
    forall i | LastNonZero(e.gtp.value.targets, i)
      ensures to[e.gtp.value.targets[i].0] == e.gtp.value.targets[i].1 % 4294967296
    {
      NonZeroWeight(e.gtp.value.targets, i);
    }
  }

  /** A policy's distribution names a place to come from. */
  lemma NotEverywhere(e: Event)
    requires IsFailover(e)
    ensures FailoverRule(e) != Balanced(None) && forall x :: FailoverRule(e) != Carrying(x)
  {
    assert |e.locality + "/*"| != |"*"|;
  }

  lemma LingeringStep(endpoints: seq<string>, e: Event)
    requires endpoints != [] && IsFailover(e)
    ensures NextRule(endpoints, Some(FailoverRule(e))) == if |endpoints| > 1 then FailoverRule(e) else Balanced(None)
  {
    assert |e.locality + "/*"| != |"*"|;
  }
}
