/** Laws of the virtual-service merge: its layout, and what merging twice does. */
module VsMergeLaws {
  import opened Mesh
  import opened Prelude
  import opened VsMerge

  // ----- groups and their order ---------------------------------------------------------------------

  ghost predicate Increasing(s: seq<nat>) {
    forall i, j :: 0 <= i < j < |s| ==> s[i] < s[j]
  }

  function Picked(routes: seq<Route>, positions: seq<nat>): seq<Route>
    requires forall k :: 0 <= k < |positions| ==> positions[k] < |routes|
  {
    seq(|positions|, k requires 0 <= k < |positions| => routes[positions[k]])
  }

  lemma {:induction false} NamedAppend(a: seq<Route>, b: seq<Route>, names: set<string>, keep: bool)
    ensures Named(a + b, names, keep) == Named(a, names, keep) + Named(b, names, keep)
  {
    if b == [] {
      assert a + b == a;
    } else {
      assert (a + b)[..|a + b| - 1] == a + b[..|b| - 1];
      NamedAppend(a, b[..|b| - 1], names, keep);
    }
  }

  /** `positions` are, in order, the positions of the routes in (or out of) a set of names. */
  ghost predicate Selects(positions: seq<nat>, routes: seq<Route>, names: set<string>, keep: bool) {
    && Increasing(positions)
    && (forall k :: 0 <= k < |positions| ==> positions[k] < |routes|)
    && (forall i :: i in positions <==> 0 <= i < |routes| && (routes[i].name in names) == keep)
  }

  lemma SelectsGrows(positions: seq<nat>, routes: seq<Route>, names: set<string>, keep: bool)
    requires routes != [] && Selects(positions, routes[..|routes| - 1], names, keep)
    ensures
      var n := |routes| - 1;
      Selects(if (routes[n].name in names) == keep then positions + [n] else positions, routes, names, keep)
  {
    var n := |routes| - 1;
    assert forall i :: 0 <= i < n ==> routes[..n][i] == routes[i];
    if (routes[n].name in names) == keep {
      assert forall i :: i in positions + [n] <==> i in positions || i == n;
    }
  }

  lemma PickedGrows(positions: seq<nat>, routes: seq<Route>)
    requires routes != [] && forall k :: 0 <= k < |positions| ==> positions[k] < |routes| - 1
    ensures Picked(routes, positions) == Picked(routes[..|routes| - 1], positions)
    ensures Picked(routes, positions + [|routes| - 1]) == Picked(routes, positions) + [routes[|routes| - 1]]
  {
  }

  function Positions(routes: seq<Route>, names: set<string>, keep: bool): seq<nat> {
    if routes == [] then []
    else
      var n := |routes| - 1;
      Positions(routes[..n], names, keep) + if (routes[n].name in names) == keep then [n] else []
  }

  lemma {:induction false} PositionsSelect(routes: seq<Route>, names: set<string>, keep: bool)
    ensures Selects(Positions(routes, names, keep), routes, names, keep)
  {
    if routes != [] {
      var n := |routes| - 1;
      var before := Positions(routes[..n], names, keep);
      PositionsSelect(routes[..n], names, keep);
      SelectsGrows(before, routes, names, keep);
      assert before + [] == before;
    }
  }

  lemma {:induction false} NamedPicks(routes: seq<Route>, names: set<string>, keep: bool)
    requires Selects(Positions(routes, names, keep), routes, names, keep)
    ensures Named(routes, names, keep) == Picked(routes, Positions(routes, names, keep))
  {
    if routes != [] {
      var n := |routes| - 1;
      var before := Positions(routes[..n], names, keep);
      PositionsSelect(routes[..n], names, keep);
      NamedPicks(routes[..n], names, keep);
      PickedGrows(before, routes);
      assert before + [] == before;
    }
  }

  lemma NamedOne(r: Route, names: set<string>, keep: bool)
    ensures Named([r], names, keep) == if (r.name in names) == keep then [r] else []
  {
    assert [r][..0] == [];
  }

  lemma NamedSplit(routes: seq<Route>, names: set<string>, keep: bool)
    requires routes != []
    ensures
      var n := |routes| - 1;
      Named(routes, names, keep) == Named(routes[..n], names, keep) + Named([routes[n]], names, keep)
  {
    NamedOne(routes[|routes| - 1], names, keep);
  }

  lemma {:induction false} NamedTwice(routes: seq<Route>, a: set<string>, b: set<string>)
    ensures Named(Named(routes, a, false), b, false) == Named(routes, a + b, false)
  {
    if routes != [] {
      var r, prefix := routes[|routes| - 1], routes[..|routes| - 1];
      NamedTwice(prefix, a, b);
      NamedSplit(routes, a, false);
      NamedSplit(routes, a + b, false);
      NamedAppend(Named(prefix, a, false), Named([r], a, false), b, false);
      NamedOne(r, a, false);
      NamedOne(r, b, false);
      NamedOne(r, a + b, false);
    }
  }

  /** The layout of the merged routes: the in-cluster routes of hosts missing from the custom
      virtual service, then all custom routes, then the other in-cluster routes. Each group is
      in its input order, and an in-cluster route is dropped exactly when its host is not
      missing and a custom route has its name. */
  lemma MergedLayout(custom: seq<Route>, incluster: seq<Route>, diff: set<string>)
    returns (front: seq<nat>, back: seq<nat>)
    ensures Selects(front, incluster, diff, true)
    ensures Selects(back, incluster, diff + Names(custom), false)
    ensures Sorted(custom, incluster, diff) == Picked(incluster, front) + custom + Picked(incluster, back)
  {
    front := Positions(incluster, diff, true);
    back := Positions(incluster, diff + Names(custom), false);
    PositionsSelect(incluster, diff, true);
    PositionsSelect(incluster, diff + Names(custom), false);
    NamedPicks(incluster, diff, true);
    NamedPicks(incluster, diff + Names(custom), false);
    NamedTwice(incluster, diff, Names(custom));
  }

  /** The whole merge: the custom routes in the middle, resolved against the in-cluster routes
      and then the cache; in front of them the routes named after in-cluster hosts that the
      custom virtual service lacks, behind them the other in-cluster routes, unless a custom
      route has their name. */
  lemma MergedRoutes(custom: VirtualService, incluster: VirtualService, cache: HostCache)
    returns (front: seq<nat>, back: seq<nat>)
    ensures
      var missing := set h | h in incluster.hosts && h !in custom.hosts;
      && Selects(front, incluster.http, missing, true)
      && Selects(back, incluster.http, missing + set r | r in custom.http :: r.name, false)
      && Merged(custom, incluster, cache).http ==
         Picked(incluster.http, front) + Modified(custom.http, incluster.http, cache) + Picked(incluster.http, back)
  {
    var modified := Modified(custom.http, incluster.http, cache);
    front, back := MergedLayout(modified, incluster.http, HostsDiff(incluster.hosts, custom.hosts));
    ModifiedNames(custom.http, incluster.http, cache);
  }

  /** Every host of both inputs is in the merged one, and no other. */
  lemma MergedHasAllHosts(custom: VirtualService, incluster: VirtualService, cache: HostCache)
    ensures forall h :: h in Merged(custom, incluster, cache).hosts <==> h in custom.hosts || h in incluster.hosts
  {
    MergedHostsMembers(custom.hosts, incluster.hosts);
  }

  // ----- lookups in the merged routes ------------------------------------------------------------------

  lemma {:induction false} LookupAppend(a: seq<Route>, b: seq<Route>, host: string)
    ensures Lookup(a + b, host) == if Lookup(b, host).Some? then Lookup(b, host) else Lookup(a, host)
  {
    if b == [] {
      assert a + b == a;
    } else {
      assert (a + b)[..|a + b| - 1] == a + b[..|b| - 1];
      LookupAppend(a, b[..|b| - 1], host);
    }
  }

  lemma {:induction false} LookupNamed(routes: seq<Route>, names: set<string>, keep: bool, host: string)
    ensures Lookup(Named(routes, names, keep), host) ==
      if (host in names) == keep then Lookup(routes, host) else None
  {
    if routes != [] {
      var n := |routes| - 1;
      LookupNamed(routes[..n], names, keep, host);
      if (routes[n].name in names) == keep {
        assert Named(routes, names, keep) == Named(routes[..n], names, keep) + [routes[n]];
        LookupAppend(Named(routes[..n], names, keep), [routes[n]], host);
        LookupOne(routes[n], host);
      } else {
        assert Named(routes, names, keep) == Named(routes[..n], names, keep);
      }
    }
  }

  lemma LookupOne(r: Route, host: string)
    ensures Lookup([r], host) == if r.name == host then Some(r) else None
  {
    assert [r][..0] == [];
  }

  lemma {:induction false} LookupAbsent(routes: seq<Route>, host: string)
    requires host !in Names(routes)
    ensures Lookup(routes, host) == None
  {
    if routes != [] {
      var n := |routes| - 1;
      assert forall r :: r in routes[..n] ==> r in routes;
      assert routes[n] in routes;
      LookupAbsent(routes[..n], host);
    }
  }

  /** A host that no custom route is named after is found in the merged routes as before. */
  lemma LookupInSorted(custom: seq<Route>, incluster: seq<Route>, diff: set<string>, host: string)
    requires host !in Names(custom)
    ensures Lookup(Sorted(custom, incluster, diff), host) == Lookup(incluster, host)
  {
    var front, back := Named(incluster, diff, true), Named(Named(incluster, diff, false), Names(custom), false);
    LookupAppend(front + custom, back, host);
    LookupAppend(front, custom, host);
    LookupAbsent(custom, host);
    LookupNamed(incluster, diff, true, host);
    LookupNamed(incluster, diff, false, host);
    LookupNamed(Named(incluster, diff, false), Names(custom), false, host);
  }

  lemma ModifiedNames(custom: seq<Route>, routes: seq<Route>, cache: HostCache)
    ensures Names(Modified(custom, routes, cache)) == Names(custom)
  {
    var m := Modified(custom, routes, cache);
    assert forall i :: 0 <= i < |custom| ==> m[i].name == custom[i].name && m[i] in m && custom[i] in custom;
    forall n
      ensures n in Names(m) <==> n in Names(custom)
    {
      if n in Names(m) {
        var i :| 0 <= i < |m| && m[i].name == n;
        assert custom[i] in custom;
      }
      if n in Names(custom) {
        var i :| 0 <= i < |custom| && custom[i].name == n;
        assert m[i] in m;
      }
    }
  }

  // ----- merging twice -----------------------------------------------------------------------------------

  /** No custom route is named after a host some custom destination points to. */
  predicate NamesAvoidDestinations(custom: seq<Route>) {
    forall i, j :: 0 <= i < |custom| && 0 <= j < |Dests(custom[i])| ==> Dests(custom[i])[j].host !in Names(custom)
  }

  predicate NamesAvoidDiff(custom: seq<Route>, diff: set<string>) {
    forall i :: 0 <= i < |custom| ==> custom[i].name !in diff
  }

  lemma {:induction false} ReplacedAgain(a: seq<Route>, b: seq<Route>, cache: HostCache, dests: seq<Destination>)
    requires forall j :: 0 <= j < |dests| ==> Lookup(a, dests[j].host) == Lookup(b, dests[j].host)
    ensures ReplacedAll(a, cache, dests) == ReplacedAll(b, cache, dests)
  {
    if dests != [] {
      ReplacedAgain(a, b, cache, dests[..|dests| - 1]);
    }
  }

  /** The custom routes come out the same when modified against the merged routes. */
  lemma ModifiedAgain(custom: seq<Route>, incluster: seq<Route>, diff: set<string>, cache: HostCache)
    requires NamesAvoidDestinations(custom)
    ensures
      var m := Modified(custom, incluster, cache);
      Modified(custom, Sorted(m, incluster, diff), cache) == m
  {
    var m := Modified(custom, incluster, cache);
    ModifiedNames(custom, incluster, cache);
    forall i | 0 <= i < |custom|
      ensures ModifiedRoute(Sorted(m, incluster, diff), cache, custom[i]) == m[i]
    {
      forall j | 0 <= j < |Dests(custom[i])|
        ensures Lookup(Sorted(m, incluster, diff), Dests(custom[i])[j].host) == Lookup(incluster, Dests(custom[i])[j].host)
      {
        LookupInSorted(m, incluster, diff, Dests(custom[i])[j].host);
      }
      ReplacedAgain(Sorted(m, incluster, diff), incluster, cache, Dests(custom[i]));
    }
  }

  lemma {:induction false} NamedAll(routes: seq<Route>, names: set<string>, keep: bool)
    requires forall i :: 0 <= i < |routes| ==> (routes[i].name in names) == keep
    ensures Named(routes, names, keep) == routes && Named(routes, names, !keep) == []
  {
    if routes != [] {
      NamedAll(routes[..|routes| - 1], names, keep);
    }
  }

  lemma {:induction false} NamedOnly(routes: seq<Route>, names: set<string>, keep: bool)
    ensures forall i :: 0 <= i < |Named(routes, names, keep)| ==> (Named(routes, names, keep)[i].name in names) == keep
    ensures forall r :: r in Named(routes, names, keep) ==> r in routes
  {
    if routes != [] {
      NamedOnly(routes[..|routes| - 1], names, keep);
    }
  }

  lemma NamedThree(a: seq<Route>, b: seq<Route>, c: seq<Route>, names: set<string>, keep: bool)
    ensures Named(a + b + c, names, keep) == Named(a, names, keep) + Named(b, names, keep) + Named(c, names, keep)
  {
    NamedAppend(a + b, c, names, keep);
    NamedAppend(a, b, names, keep);
  }

  /** The two groups of in-cluster routes seen from the next merge. */
  lemma GroupsOfSorted(custom: seq<Route>, front: seq<Route>, back: seq<Route>, diff: set<string>)
    requires Named(front, diff, true) == front && Named(front, diff, false) == []
    requires Named(back, diff, false) == back && Named(back, diff, true) == []
    ensures Named(front + custom + back, diff, true) == front + Named(custom, diff, true)
    ensures Named(front + custom + back, diff, false) == Named(custom, diff, false) + back
  {
    NamedThree(front, custom, back, diff, true);
    NamedThree(front, custom, back, diff, false);
  }

  /** Sorting already sorted routes again, with custom routes of the same names, puts the new
      ones in the place of the old, and inserts a copy of each old one whose name is among the
      missing hosts. */
  lemma SortedAgain(custom: seq<Route>, incluster: seq<Route>, diff: set<string>, again: seq<Route>)
    requires Names(again) == Names(custom)
    ensures Sorted(again, Sorted(custom, incluster, diff), diff) ==
      Named(incluster, diff, true) + Named(custom, diff, true) + again +
      Named(Named(incluster, diff, false), Names(custom), false)
  {
    var rest, default := Named(custom, diff, false), Named(incluster, diff, false);
    var front, back := Named(incluster, diff, true), Named(default, Names(custom), false);
    NamedOnly(incluster, diff, true);
    NamedOnly(incluster, diff, false);
    NamedOnly(default, Names(custom), false);
    assert forall i :: 0 <= i < |back| ==> back[i] in default;
    NamedAll(front, diff, true);
    NamedAll(back, diff, false);
    GroupsOfSorted(custom, front, back, diff);
    NamedOnly(custom, diff, false);
    assert forall i :: 0 <= i < |rest| ==> rest[i] in custom;
    NamedAppend(rest, back, Names(custom), false);
    NamedAll(rest, Names(custom), true);
    NamedAll(back, Names(custom), false);
  }

  /** In the merged routes a host resolves as in the in-cluster routes followed by the custom
      ones: the default routes behind these have none of their names. */
  lemma LookupInMerged(custom: seq<Route>, incluster: seq<Route>, diff: set<string>, host: string)
    ensures Lookup(Sorted(custom, incluster, diff), host) == Lookup(incluster + custom, host)
  {
    LookupAppend(incluster, custom, host);
    if host in Names(custom) {
      var front, back := Named(incluster, diff, true), Named(Named(incluster, diff, false), Names(custom), false);
      LookupAppend(front + custom, back, host);
      LookupAppend(front, custom, host);
      NamedOnly(Named(incluster, diff, false), Names(custom), false);
      LookupAbsent(back, host);
      LookupPresent(custom, host);
    } else {
      LookupInSorted(custom, incluster, diff, host);
      LookupAbsent(custom, host);
    }
  }

  lemma {:induction false} LookupPresent(routes: seq<Route>, host: string)
    requires host in Names(routes)
    ensures Lookup(routes, host).Some?
  {
    var n := |routes| - 1;
    assert routes == routes[..n] + [routes[n]];
    if routes[n].name != host {
      assert host in Names(routes[..n]);
      LookupPresent(routes[..n], host);
    }
  }

  /** So a second merge modifies the custom routes against the in-cluster routes followed by
      the first result. */
  lemma ModifiedInMerged(custom: seq<Route>, incluster: seq<Route>, diff: set<string>, cache: HostCache)
    ensures
      var m := Modified(custom, incluster, cache);
      Modified(custom, Sorted(m, incluster, diff), cache) == Modified(custom, incluster + m, cache)
  {
    var m := Modified(custom, incluster, cache);
    var sorted := Sorted(m, incluster, diff);
    forall i | 0 <= i < |custom|
      ensures ModifiedRoute(sorted, cache, custom[i]) == ModifiedRoute(incluster + m, cache, custom[i])
    {
      forall j | 0 <= j < |Dests(custom[i])|
        ensures Lookup(sorted, Dests(custom[i])[j].host) == Lookup(incluster + m, Dests(custom[i])[j].host)
      {
        LookupInMerged(m, incluster, diff, Dests(custom[i])[j].host);
      }
      ReplacedAgain(sorted, incluster + m, cache, Dests(custom[i]));
    }
  }

  /** The first merge's custom routes are a fixed point: each custom destination that names a
      custom route resolves through the first result to the same destinations again. */
  predicate ModifiedOnce(custom: seq<Route>, incluster: seq<Route>, cache: HostCache) {
    var m := Modified(custom, incluster, cache);
    Modified(custom, incluster + m, cache) == m
  }

  lemma MergedTwice(custom: VirtualService, incluster: VirtualService, cache: HostCache)
    ensures
      var diff := HostsDiff(incluster.hosts, custom.hosts);
      var m := Modified(custom.http, incluster.http, cache);
      var m2 := Modified(custom.http, incluster.http + m, cache);
      Merged(custom, Merged(custom, incluster, cache), cache) == VirtualService(
        MergedHosts(custom.hosts, incluster.hosts),
        Named(incluster.http, diff, true) + Named(m, diff, true) + m2 +
        Named(Named(incluster.http, diff, false), Names(custom.http), false))
  {
    var once := Merged(custom, incluster, cache);
    var diff := HostsDiff(incluster.hosts, custom.hosts);
    var m := Modified(custom.http, incluster.http, cache);
    var m2 := Modified(custom.http, incluster.http + m, cache);
    MergeHostsTwice(custom.hosts, incluster.hosts);
    MergedHostsMembers(custom.hosts, incluster.hosts);
    assert HostsDiff(once.hosts, custom.hosts) == diff;
    ModifiedInMerged(custom.http, incluster.http, diff, cache);
    ModifiedNames(custom.http, incluster.http, cache);
    ModifiedNames(custom.http, incluster.http + m, cache);
    SortedAgain(m, incluster.http, diff, m2);
  }

  lemma SameMiddle(front: seq<Route>, extra: seq<Route>, m: seq<Route>, m2: seq<Route>, back: seq<Route>)
    requires |m| == |m2|
    ensures front + extra + m2 + back == front + m + back <==> extra == [] && m2 == m
  {
    var a, b := front + extra + m2 + back, front + m + back;
    if a == b {
      assert |extra| == 0;
      assert a[|front|..|front| + |m|] == m2;
      assert b[|front|..|front| + |m|] == m;
    } else if extra == [] {
      assert front + extra == front;
    }
  }

  /** Main result: merging into an already merged virtual service changes nothing exactly when
      no custom route is named after a host that is missing from the custom virtual service,
      and the custom routes, looked up once more through their first results, stay the same. */
  lemma MergeIdempotentExactly(custom: VirtualService, incluster: VirtualService, cache: HostCache)
    ensures
      var once := Merged(custom, incluster, cache);
      Merged(custom, once, cache) == once <==>
      NamesAvoidDiff(custom.http, HostsDiff(incluster.hosts, custom.hosts)) && ModifiedOnce(custom.http, incluster.http, cache)
  {
    var diff := HostsDiff(incluster.hosts, custom.hosts);
    var m := Modified(custom.http, incluster.http, cache);
    var m2 := Modified(custom.http, incluster.http + m, cache);
    MergedTwice(custom, incluster, cache);
    ModifiedNames(custom.http, incluster.http, cache);
    SameMiddle(Named(incluster.http, diff, true), Named(m, diff, true), m, m2,
               Named(Named(incluster.http, diff, false), Names(m), false));
    assert forall i :: 0 <= i < |m| ==> m[i].name == custom.http[i].name;
    if NamesAvoidDiff(custom.http, diff) {
      NamedAll(m, diff, false);
    } else {
      var i :| 0 <= i < |m| && m[i].name in diff;
      NamedNonEmpty(m, diff, i);
    }
  }

  /** Custom routes named apart from all custom destination hosts meet the second condition. */
  lemma NamedApartModifiedOnce(custom: seq<Route>, incluster: seq<Route>, cache: HostCache)
    requires NamesAvoidDestinations(custom)
    ensures ModifiedOnce(custom, incluster, cache)
  {
    ModifiedAgain(custom, incluster, {}, cache);
    ModifiedInMerged(custom, incluster, {}, cache);
  }

  lemma {:induction false} NamedNonEmpty(routes: seq<Route>, names: set<string>, i: nat)
    requires i < |routes| && routes[i].name in names
    ensures Named(routes, names, true) != []
  {
    if i < |routes| - 1 {
      NamedNonEmpty(routes[..|routes| - 1], names, i);
    }
  }

  /** The second condition can fail alone: a custom route named after its own destination host
      finds its first result in the merged routes and has its weights scaled once more. */
  lemma NamedAfterDestinationMergesDifferently() returns (custom: VirtualService, incluster: VirtualService)
    ensures NamesAvoidDiff(custom.http, HostsDiff(incluster.hosts, custom.hosts))
    ensures var once := Merged(custom, incluster, map[]); Merged(custom, once, map[]) != once
  {
    var split := [Destination("h", 80, 50), Destination("x", 80, 50)];
    var local := [Destination("l1", 80, 50), Destination("l2", 80, 50)];
    var first := [Destination("l1", 80, 25), Destination("l2", 80, 25), Destination("x", 80, 50)];
    var second := [Destination("l1", 80, 12), Destination("l2", 80, 12), Destination("x", 80, 25), Destination("x", 80, 50)];
    custom := VirtualService(["h"], [Route("h", Some(split))]);
    incluster := VirtualService(["h"], [Route("h", Some(local))]);
    var m := Modified(custom.http, incluster.http, map[]);
    LookupOne(incluster.http[0], "h");
    LookupOne(incluster.http[0], "x");
    TwoWays(split, incluster.http, local, first);
    assert m == [Route("h", Some(first))];
    LookupOne(m[0], "h");
    LookupOne(m[0], "x");
    LookupAppend(incluster.http, m, "h");
    LookupAppend(incluster.http, m, "x");
    TwoWays(split, incluster.http + m, first, second);
    assert Modified(custom.http, incluster.http + m, map[])[0].dests == Some(second);
    assert |first| != |second|;
    MergeIdempotentExactly(custom, incluster, map[]);
  }

  /** The destinations of the example, against routes that know "h" but not "x". */
  lemma TwoWays(split: seq<Destination>, routes: seq<Route>, known: seq<Destination>, result: seq<Destination>)
    requires split == [Destination("h", 80, 50), Destination("x", 80, 50)]
    requires Lookup(routes, "h") == Some(Route("h", Some(known))) && Lookup(routes, "x") == None && |known| > 1
    requires Adjusted(known, 50) + [Destination("x", 80, 50)] == result
    ensures ReplacedAll(routes, map[], split) == result
  {
    assert split[..1] == [split[0]] && [split[0]][..0] == [];
    assert ReplacedAll(routes, map[], [split[0]]) == Adjusted(known, 50);
  }
}
