/** The check that decides whether a virtual service has to be written again. */
module Reconcile {
  import opened Mesh
  import opened Prelude
  import opened Ordering
  import opened VsMerge

  /** The compared parts; None is a nil list. */
  datatype Spec = Spec(
    exportTo: Option<seq<string>>,
    hosts: Option<seq<string>>,
    gateways: Option<seq<string>>,
    http: Option<seq<Route>>)

  // ----- equality up to order ---------------------------------------------------------------------

  /** A route with its destinations as a bag. */
  datatype RouteBag = RouteBag(name: string, dests: Option<multiset<Destination>>)

  function BagOf(r: Route): RouteBag {
    RouteBag(r.name, if r.dests.None? then None else Some(multiset(r.dests.value)))
  }

  function Bags(routes: seq<Route>): seq<RouteBag> {
    seq(|routes|, i requires 0 <= i < |routes| => BagOf(routes[i]))
  }

  /** The same routes with the same destinations, in any order. */
  predicate SameRoutes(a: seq<Route>, b: seq<Route>) {
    multiset(Bags(a)) == multiset(Bags(b))
  }

  predicate SameList(a: Option<seq<string>>, b: Option<seq<string>>) {
    a.Some? == b.Some? && (a.Some? ==> multiset(a.value) == multiset(b.value))
  }

  predicate SameSpec(cached: Spec, desired: Spec) {
    && SameList(cached.exportTo, desired.exportTo)
    && SameList(cached.hosts, desired.hosts)
    && cached.http.Some? && desired.http.Some? && SameRoutes(cached.http.value, desired.http.value)
    && (desired.gateways.Some? ==> SameList(cached.gateways, desired.gateways))
  }

  /** When one part of a spec is exchanged: a nil list is not the same as an empty one, gateways
      matter only when they are wanted, and a spec without routes is never the same. */
  lemma OnePartExchanged(s: Spec, list: Option<seq<string>>)
    requires s.http.Some?
    ensures SameSpec(s, s) && !SameSpec(s.(http := None), s) && !SameSpec(s, s.(http := None))
    ensures !SameSpec(s.(http := None), s.(http := None))
    ensures list.Some? ==> !SameSpec(s.(hosts := None), s.(hosts := list)) && !SameSpec(s.(hosts := list), s.(hosts := None))
    ensures list.Some? ==> !SameSpec(s.(exportTo := None), s.(exportTo := list)) && !SameSpec(s.(exportTo := list), s.(exportTo := None))
    ensures list.Some? ==> !SameSpec(s.(gateways := None), s.(gateways := list)) && SameSpec(s.(gateways := list), s.(gateways := None))
  {
  }

  function RouteName(r: Route): string { r.name }

  function BagName(b: RouteBag): string { b.name }

  function HostOf(d: Destination): string { d.host }

  function Itself(s: string): string { s }

  /** A route name stands for one route, up to the order of its destinations, and within a
      route a host stands for one destination. */
  ghost predicate Determinate(routes: seq<Route>) {
    && KeyDetermines(Bags(routes), BagName)
    && forall i :: 0 <= i < |routes| ==> KeyDetermines(Dests(routes[i]), HostOf)
  }

  // ----- normal forms -----------------------------------------------------------------------------

  ghost predicate DestsSorted(routes: seq<Route>) {
    forall i :: 0 <= i < |routes| ==> SortedBy(Dests(routes[i]), HostOf)
  }

  /** `r` is one of the results of sorting the routes and then each route's destinations. */
  ghost predicate IsNormal(s: seq<Route>, r: seq<Route>) {
    SameRoutes(s, r) && SortedBy(Bags(r), BagName) && DestsSorted(r)
  }

  lemma BagsWithout(s: seq<Route>, i: nat)
    requires i < |s|
    ensures multiset(Bags(s)) == multiset(Bags(Without(s, i))) + multiset{BagOf(s[i])}
  {
    assert Bags(Without(s, i)) == Without(Bags(s), i);
    WithoutCounts(Bags(s), i);
  }

  lemma Paired(s: seq<Route>, t: seq<Route>) returns (i: nat)
    requires s != [] && multiset(s) == multiset(t)
    ensures i < |t| && t[i] == s[0] && multiset(Without(s, 0)) == multiset(Without(t, i))
  {
    assert s[0] in multiset(t);
    i :| 0 <= i < |t| && t[i] == s[0];
    WithoutCounts(s, 0);
    WithoutCounts(t, i);
  }

  lemma {:induction false} BagsPermute(s: seq<Route>, t: seq<Route>)
    requires multiset(s) == multiset(t)
    ensures multiset(Bags(s)) == multiset(Bags(t))
  {
    if s == [] {
      assert |multiset(t)| == 0;
      assert t == [];
    } else {
      var i := Paired(s, t);
      BagsPermute(Without(s, 0), Without(t, i));
      BagsWithout(s, 0);
      BagsWithout(t, i);
    }
  }

  lemma BagsSorted(routes: seq<Route>)
    requires SortedBy(routes, RouteName)
    ensures SortedBy(Bags(routes), BagName)
  {
    forall i, j | 0 <= i < j < |routes|
      ensures !Less(BagName(Bags(routes)[j]), BagName(Bags(routes)[i]))
    {
      assert !Less(RouteName(routes[j]), RouteName(routes[i]));
    }
  }

  /** Sorts the routes by name and each route's destinations by host. */
  method Normalise(routes: seq<Route>) returns (r: seq<Route>)
    ensures IsNormal(routes, r)
  {
    var byName := Sort(routes, RouteName);
    BagsPermute(routes, byName);
    BagsSorted(byName);
    r := byName;
    for i := 0 to |byName|
      invariant |r| == |byName| && Bags(r) == Bags(byName)
      invariant forall k :: 0 <= k < i ==> SortedBy(Dests(r[k]), HostOf)
    {
      if r[i].dests.Some? {
        var dests := Sort(r[i].dests.value, HostOf);
        ghost var before := r;
        r := r[i := r[i].(dests := Some(dests))];
        assert BagOf(r[i]) == BagOf(before[i]);
        assert forall k :: 0 <= k < |r| ==> Bags(r)[k] == Bags(before)[k];
      }
    }
  }

  lemma DeterminedBag(a: seq<Route>, r: Route)
    requires Determinate(a) && BagOf(r) in multiset(Bags(a))
    ensures KeyDetermines(Dests(r), HostOf)
  {
    assert BagOf(r) in Bags(a);
    var k :| 0 <= k < |a| && Bags(a)[k] == BagOf(r);
    assert BagOf(a[k]) == BagOf(r);
    assert forall d :: d in Dests(r) ==> d in multiset(Dests(r));
    assert multiset(Dests(r)) == multiset(Dests(a[k]));
    assert forall d :: d in multiset(Dests(a[k])) ==> d in Dests(a[k]);
  }

  lemma SameDests(a: seq<Route>, r: Route, t: Route)
    requires Determinate(a) && BagOf(r) in multiset(Bags(a)) && BagOf(r) == BagOf(t)
    requires SortedBy(Dests(r), HostOf) && SortedBy(Dests(t), HostOf)
    ensures r == t
  {
    DeterminedBag(a, r);
    if r.dests.Some? {
      SortUnique(r.dests.value, t.dests.value, HostOf);
    }
  }

  /** Equal normal forms come from equal specs, up to order; for determinate routes the
      converse holds for every way the sorts may order ties. */
  lemma NormalFormsDecide(a: seq<Route>, b: seq<Route>, ra: seq<Route>, rb: seq<Route>)
    requires IsNormal(a, ra) && IsNormal(b, rb)
    ensures ra == rb ==> SameRoutes(a, b)
    ensures Determinate(b) ==> (ra == rb <==> SameRoutes(a, b))
  {
    if Determinate(b) && SameRoutes(a, b) {
      assert forall x :: x in Bags(rb) ==> x in multiset(Bags(rb));
      assert forall x :: x in multiset(Bags(b)) ==> x in Bags(b);
      assert KeyDetermines(Bags(rb), BagName);
      SortUnique(Bags(rb), Bags(ra), BagName);
      assert |ra| == |Bags(ra)| && |rb| == |Bags(rb)|;
      forall i | 0 <= i < |ra|
        ensures ra[i] == rb[i]
      {
        assert Bags(ra)[i] == BagOf(ra[i]);
        assert Bags(rb)[i] == BagOf(rb[i]);
        assert BagOf(rb[i]) in Bags(rb);
        SameDests(b, rb[i], ra[i]);
      }
    }
  }

  lemma BagsExchanged(r: seq<Route>, i: nat, j: nat)
    requires i < j < |r|
    ensures Bags(r[i := r[j]][j := r[i]]) == Bags(r)[i := Bags(r)[j]][j := Bags(r)[i]]
  {
  }

  /** Two different routes with one name: besides any normal form of the routes there is
      another, so an unchanged list may still be taken for a change. */
  lemma SharedNameIsAmbiguous(a: seq<Route>, r: seq<Route>, i: nat, j: nat)
    requires IsNormal(a, r) && i < j < |r| && r[i] != r[j] && r[i].name == r[j].name
    ensures IsNormal(a, r[i := r[j]][j := r[i]]) && r[i := r[j]][j := r[i]] != r
  {
    var t := r[i := r[j]][j := r[i]];
    assert t[i] == r[j];
    BagsExchanged(r, i, j);
    TieAdmitsAnotherOrder(Bags(r), BagName, Bags(r), i, j);
  }

  /** Two different destinations of one host in a route are ambiguous in the same way. */
  lemma SharedHostIsAmbiguous(a: seq<Route>, r: seq<Route>, k: nat, i: nat, j: nat)
    requires IsNormal(a, r) && k < |r| && i < j < |Dests(r[k])|
    requires Dests(r[k])[i] != Dests(r[k])[j] && Dests(r[k])[i].host == Dests(r[k])[j].host
    ensures !OneNormalForm(a)
  {
    var dests := r[k].dests.value;
    var other := dests[i := dests[j]][j := dests[i]];
    TieAdmitsAnotherOrder(dests, HostOf, dests, i, j);
    var t := r[k := r[k].(dests := Some(other))];
    assert t[k] != r[k];
    assert BagOf(t[k]) == BagOf(r[k]);
    assert Bags(t) == Bags(r);
    TwoNormalForms(a, r, t);
  }

  /** Some normal form exists: sort the routes, then each route's destinations. */
  lemma {:induction false} SomeNormalForm(a: seq<Route>) returns (r: seq<Route>)
    ensures IsNormal(a, r)
  {
    var byName := SortableByKey(a, RouteName);
    BagsPermute(a, byName);
    BagsSorted(byName);
    r := DestsSortable(byName);
  }

  lemma {:induction false} DestsSortable(a: seq<Route>) returns (r: seq<Route>)
    ensures Bags(r) == Bags(a) && DestsSorted(r)
  {
    r := [];
    if a != [] {
      var n := |a| - 1;
      r := DestsSortable(a[..n]);
      var last := a[n];
      if last.dests.Some? {
        var dests := SortableByKey(last.dests.value, HostOf);
        last := last.(dests := Some(dests));
      }
      assert BagOf(last) == BagOf(a[n]);
      assert Bags(r + [last]) == Bags(r) + [BagOf(last)];
      assert Bags(a) == Bags(a[..n]) + [BagOf(a[n])];
      r := r + [last];
    }
  }

  ghost predicate OneNormalForm(a: seq<Route>) {
    forall r, t :: IsNormal(a, r) && IsNormal(a, t) ==> r == t
  }

  lemma InNormalForm(a: seq<Route>, r: seq<Route>, x: RouteBag) returns (i: nat)
    requires IsNormal(a, r) && x in Bags(a)
    ensures i < |r| && BagOf(r[i]) == x
  {
    assert x in multiset(Bags(r));
    assert x in Bags(r);
    i :| 0 <= i < |Bags(r)| && Bags(r)[i] == x;
  }

  lemma TwoNormalForms(a: seq<Route>, r: seq<Route>, t: seq<Route>)
    requires IsNormal(a, r) && IsNormal(a, t) && r != t
    ensures !OneNormalForm(a)
  {
  }

  lemma SharedName(a: seq<Route>, r: seq<Route>, x: RouteBag, y: RouteBag)
    requires IsNormal(a, r) && x in Bags(a) && y in Bags(a) && x.name == y.name && x != y
    ensures !OneNormalForm(a)
  {
    var i := InNormalForm(a, r, x);
    var j := InNormalForm(a, r, y);
    var first, second := if i < j then i else j, if i < j then j else i;
    SharedNameIsAmbiguous(a, r, first, second);
    TwoNormalForms(a, r, r[first := r[second]][second := r[first]]);
  }

  lemma SharedHost(a: seq<Route>, r: seq<Route>, i: nat, d: Destination, e: Destination)
    requires IsNormal(a, r) && i < |a| && d in Dests(a[i]) && e in Dests(a[i]) && d.host == e.host && d != e
    ensures !OneNormalForm(a)
  {
    assert Bags(a)[i] in Bags(a);
    var k := InNormalForm(a, r, Bags(a)[i]);
    assert d in multiset(Dests(a[i])) && e in multiset(Dests(a[i]));
    assert multiset(Dests(r[k])) == multiset(Dests(a[i]));
    assert d in Dests(r[k]) && e in Dests(r[k]);
    var m :| 0 <= m < |Dests(r[k])| && Dests(r[k])[m] == d;
    var n :| 0 <= n < |Dests(r[k])| && Dests(r[k])[n] == e;
    if m < n {
      SharedHostIsAmbiguous(a, r, k, m, n);
    } else {
      SharedHostIsAmbiguous(a, r, k, n, m);
    }
  }

  /** The comparison is independent of how the sorts order ties exactly for determinate routes. */
  lemma DeterminateExactly(a: seq<Route>)
    ensures OneNormalForm(a) <==> Determinate(a)
  {
    if Determinate(a) {
      forall r, t | IsNormal(a, r) && IsNormal(a, t)
        ensures r == t
      {
        NormalFormsDecide(a, a, r, t);
      }
    } else {
      var r := SomeNormalForm(a);
      if x, y :| x in Bags(a) && y in Bags(a) && BagName(x) == BagName(y) && x != y {
        SharedName(a, r, x, y);
      } else {
        var i :| 0 <= i < |a| && !KeyDetermines(Dests(a[i]), HostOf);
        var d, e :| d in Dests(a[i]) && e in Dests(a[i]) && HostOf(d) == HostOf(e) && d != e;
        SharedHost(a, r, i, d, e);
      }
    }
  }

  // ----- the check ----------------------------------------------------------------------------------

  /** Result.0 is the match, None the error for a nil route list. */
  method HttpRoutesMatch(a: Option<seq<Route>>, b: Option<seq<Route>>) returns (matched: Option<bool>)
    ensures matched.None? <==> a.None? || b.None?
    ensures matched == Some(true) ==> SameRoutes(a.value, b.value)
    ensures matched.Some? && Determinate(b.value) ==> (matched.value <==> SameRoutes(a.value, b.value))
  {
    if a.None? {
      return None;
    }
    if b.None? {
      return None;
    }
    var ra := Normalise(a.value);
    var rb := Normalise(b.value);
    NormalFormsDecide(a.value, b.value, ra, rb);
    matched := Some(ra == rb);
  }

  method ListsMatch(a: Option<seq<string>>, b: Option<seq<string>>) returns (matched: bool)
    ensures matched <==> SameList(a, b)
  {
    if a.None? || b.None? {
      return a.None? && b.None?;
    }
    var ra := Sort(a.value, Itself);
    var rb := Sort(b.value, Itself);
    if multiset(a.value) == multiset(b.value) {
      SortUnique(ra, rb, Itself);
    }
    matched := ra == rb;
  }

  /** `changed` asks for a write. A write is refused only for the same spec up to order, and
      always refused for it when the desired routes are determinate; a nil route list fails,
      unless an earlier difference has already decided. */
  method DoReconcile(cached: Option<Spec>, desired: Spec) returns (changed: bool, failed: bool)
    ensures !changed ==> cached.Some? && SameSpec(cached.value, desired)
    ensures cached.Some? && SameSpec(cached.value, desired) && Determinate(desired.http.value) ==> !changed
    ensures failed <==>
      && cached.Some? && (cached.value.http.None? || desired.http.None?)
      && SameList(cached.value.exportTo, desired.exportTo) && SameList(cached.value.hosts, desired.hosts)
    ensures failed ==> changed
  {
    changed, failed := true, false;
    if cached.None? {
      return;
    }
    var exports := ListsMatch(cached.value.exportTo, desired.exportTo);
    if !exports {
      return;
    }
    var hosts := ListsMatch(cached.value.hosts, desired.hosts);
    if !hosts {
      return;
    }
    var routes := HttpRoutesMatch(cached.value.http, desired.http);
    if routes.None? {
      failed := true;
      return;
    }
    if !routes.value {
      return;
    }
    if desired.gateways.Some? {
      var gateways := ListsMatch(cached.value.gateways, desired.gateways);
      if !gateways {
        return;
      }
    }
    changed := false;
  }

  /** Distinct route names and, per route, distinct destination hosts are enough. */
  lemma DistinctNamesDetermine(routes: seq<Route>)
    requires forall i, j :: 0 <= i < j < |routes| ==> routes[i].name != routes[j].name
    requires forall i :: 0 <= i < |routes| ==>
               forall k, m :: 0 <= k < m < |Dests(routes[i])| ==> Dests(routes[i])[k].host != Dests(routes[i])[m].host
    ensures Determinate(routes)
  {
    forall x, y | x in Bags(routes) && y in Bags(routes) && BagName(x) == BagName(y)
      ensures x == y
    {
      var i :| 0 <= i < |routes| && Bags(routes)[i] == x;
      var j :| 0 <= j < |routes| && Bags(routes)[j] == y;
      assert routes[i].name == routes[j].name;
    }
  }
}
