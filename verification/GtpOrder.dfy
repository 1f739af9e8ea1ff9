/** Picking one global traffic policy among those of all clusters. */
module GtpOrder {
  import opened Prelude
  import opened Ordering

  /** `priority` is None when the label is missing or not a number; `updatedAt` is the
      annotation, `created` the creation time. */
  datatype Gtp = Gtp(name: string, namespace: string, priority: Option<int>, updatedAt: Option<string>, created: int)

  function Priority(g: Gtp): int {
    if g.priority.Some? then g.priority.value else 0
  }

  /** The comparator of the sort. */
  predicate Before(a: Gtp, b: Gtp) {
    if Priority(a) != Priority(b) then Priority(a) > Priority(b)
    else if a.updatedAt.Some? && b.updatedAt.Some? then Less(b.updatedAt.value, a.updatedAt.value)
    else a.created > b.created
  }

  /** A missing priority counts as 0, a larger one comes first, and among equal ones the later
      update time does: at the first difference the later one is longer or has the larger byte. */
  lemma BeforeMeans(a: Gtp, b: Gtp, i: nat)
    ensures a.priority.None? ==> (Before(a, b) <==> Before(a.(priority := Some(0)), b))
    ensures b.priority.None? ==> (Before(a, b) <==> Before(a, b.(priority := Some(0))))
    ensures a.priority.Some? && b.priority.Some? && a.priority.value > b.priority.value ==> Before(a, b) && !Before(b, a)
    ensures a.priority == b.priority && a.updatedAt.Some? && b.updatedAt.Some? ==>
      var u, v := b.updatedAt.value, a.updatedAt.value;
      i <= |u| && i < |v| && u[..i] == v[..i] && (i == |u| || u[i] < v[i]) ==> Before(a, b) && !Before(b, a)
    ensures a.priority == b.priority && (a.updatedAt.None? || b.updatedAt.None?) ==>
      (Before(a, b) <==> a.created > b.created)
  {
    if a.updatedAt.Some? && b.updatedAt.Some? {
      LessAtFirstDifference(b.updatedAt.value, a.updatedAt.value);
      if Less(b.updatedAt.value, a.updatedAt.value) {
        LessAsymmetric(b.updatedAt.value, a.updatedAt.value);
      }
    }
  }

  // ----- when the comparator is a weak order ----------------------------------------------------------

  /** Whenever `b` has no update time and lies, by creation time, between `a` and `c`, which
      both have one, the update times of `a` and `c` agree with their creation times. */
  predicate Agree(a: Gtp, b: Gtp, c: Gtp) {
    Priority(a) == Priority(b) == Priority(c) && a.updatedAt.Some? && b.updatedAt.None? && c.updatedAt.Some?
    && a.created >= b.created >= c.created ==>
      && !Less(a.updatedAt.value, c.updatedAt.value)
      && (a.created > c.created ==> Less(c.updatedAt.value, a.updatedAt.value))
  }

  ghost predicate TimesAgree(gs: seq<Gtp>) {
    forall a, b, c :: a in gs && b in gs && c in gs ==> Agree(a, b, c)
  }

  lemma BeforeAsymmetric(a: Gtp, b: Gtp)
    requires Before(a, b)
    ensures !Before(b, a)
  {
    if Priority(a) == Priority(b) && a.updatedAt.Some? && b.updatedAt.Some? {
      LessAsymmetric(b.updatedAt.value, a.updatedAt.value);
    }
  }

  lemma NotBeforeThrough(x: Gtp, y: Gtp, z: Gtp)
    requires !Before(y, x) && !Before(z, y)
    requires Agree(x, y, z) && Agree(z, x, y) && Agree(y, z, x)
    ensures !Before(z, x)
  {
    if Priority(x) == Priority(y) == Priority(z) {
      if x.updatedAt.Some? && y.updatedAt.Some? && z.updatedAt.Some? {
        LessThrough(z.updatedAt.value, y.updatedAt.value, x.updatedAt.value);
      } else if x.updatedAt.Some? && y.updatedAt.Some? {
        LessTotal(x.updatedAt.value, y.updatedAt.value);
      }
    }
  }

  lemma Through(gs: seq<Gtp>, x: Gtp, y: Gtp, z: Gtp)
    requires WeakOrder(gs, Before) && x in gs && y in gs && z in gs
    ensures !Before(y, x) && !Before(z, y) ==> !Before(z, x)
  {
  }

  lemma AgreeFromOrder(gs: seq<Gtp>, a: Gtp, b: Gtp, c: Gtp)
    requires WeakOrder(gs, Before) && a in gs && b in gs && c in gs
    ensures Agree(a, b, c)
  {
    Through(gs, a, b, c);
    Through(gs, b, c, a);
    Through(gs, c, a, b);
  }

  /** The comparator is a strict weak order on a list exactly when no policy without an update
      time contradicts two that have one. */
  lemma WeakOrderExactly(gs: seq<Gtp>)
    ensures WeakOrder(gs, Before) <==> TimesAgree(gs)
  {
    if TimesAgree(gs) {
      forall a, b | a in gs && b in gs && Before(a, b)
        ensures !Before(b, a)
      {
        BeforeAsymmetric(a, b);
      }
      forall x, y, z | x in gs && y in gs && z in gs && !Before(y, x) && !Before(z, y)
        ensures !Before(z, x)
      {
        NotBeforeThrough(x, y, z);
      }
    }
    if WeakOrder(gs, Before) {
      forall a, b, c | a in gs && b in gs && c in gs
        ensures Agree(a, b, c)
      {
        AgreeFromOrder(gs, a, b, c);
      }
    }
  }

  /** Policies of one priority all have an update time, or none has. */
  ghost predicate Uniform(gs: seq<Gtp>) {
    forall a, b :: a in gs && b in gs && Priority(a) == Priority(b) ==> a.updatedAt.Some? == b.updatedAt.Some?
  }

  lemma UniformIsOrdered(gs: seq<Gtp>)
    requires Uniform(gs)
    ensures WeakOrder(gs, Before)
  {
    WeakOrderExactly(gs);
  }

  // ----- the pick -------------------------------------------------------------------------------------

  ghost predicate IsMaximal(gs: seq<Gtp>, p: Gtp) {
    p in gs && forall g :: g in gs ==> !Before(g, p)
  }

  /** By priority, and within it by recency. */
  lemma MaximalMeans(gs: seq<Gtp>, p: Gtp)
    requires IsMaximal(gs, p)
    ensures forall g :: g in gs ==> Priority(g) <= Priority(p)
    ensures forall g :: g in gs && Priority(g) == Priority(p) ==>
      if g.updatedAt.Some? && p.updatedAt.Some? then !Less(p.updatedAt.value, g.updatedAt.value)
      else g.created <= p.created
  {
    forall g | g in gs
      ensures Priority(g) <= Priority(p)
    {
      assert !Before(g, p);
    }
  }

  /** The top candidates are one policy; ties below them do not matter. */
  ghost predicate OneTop(gs: seq<Gtp>) {
    forall p, q :: IsMaximal(gs, p) && IsMaximal(gs, q) ==> p == q
  }

  /** The sort may put `p` first. */
  ghost predicate CanPick(gs: seq<Gtp>, p: Gtp) {
    exists sorted :: SortResult(gs, sorted) && sorted != [] && sorted[0] == p
  }

  /** What the sort promises of its result. */
  ghost predicate SortResult(gs: seq<Gtp>, sorted: seq<Gtp>) {
    multiset(sorted) == multiset(gs) && (WeakOrder(gs, Before) ==> Sorted(sorted, Before))
  }

  type Candidates = map<string, seq<Gtp>>

  function Gathered(gtps: Candidates, order: seq<string>): seq<Gtp> {
    if order == [] then []
    else
      var n := |order| - 1;
      Gathered(gtps, order[..n]) + if order[n] in gtps then gtps[order[n]] else []
  }

  /** `order` visits every cluster. */
  predicate Visits(order: seq<string>, gtps: Candidates) {
    forall c :: c in gtps ==> c in order
  }

  lemma {:induction false} GatheredMembers(gtps: Candidates, order: seq<string>)
    ensures forall g :: g in Gathered(gtps, order) <==> exists c :: c in order && c in gtps && g in gtps[c]
  {
    if order != [] {
      var n := |order| - 1;
      GatheredMembers(gtps, order[..n]);
      assert order == order[..n] + [order[n]];
    }
  }

  /** When the top candidates are one policy, the pick depends neither on the order the clusters
      are visited in, nor on how the sort breaks ties. */
  lemma PickIndependentOfOrder(gtps: Candidates, first: seq<string>, second: seq<string>, p: Gtp, q: Gtp)
    requires Visits(first, gtps) && Visits(second, gtps)
    requires OneTop(Gathered(gtps, first))
    requires IsMaximal(Gathered(gtps, first), p) && IsMaximal(Gathered(gtps, second), q)
    ensures p == q
  {
    GatheredMembers(gtps, first);
    GatheredMembers(gtps, second);
    assert q in Gathered(gtps, first) && p in Gathered(gtps, second);
    assert IsMaximal(Gathered(gtps, first), q);
  }

  /** The global cache's entry of one identity and environment. */
  class GlobalTrafficCache {
    var current: Option<Gtp>

    constructor ()
      ensures current == None
    {
      current := None;
    }

    /** `updateFails` is set when the workload data of the old policy cannot be updated. */
    method Update(gtps: Candidates, order: seq<string>, updateFails: bool) returns (failed: bool)
      requires Visits(order, gtps)
      modifies this
      ensures
        var gs := Gathered(gtps, order);
        && (gs == [] ==> failed == (old(current).Some? && updateFails))
        && (failed ==> current == old(current))
        && (!failed && gs == [] ==> current == None)
        && (!failed && gs != [] ==> current.Some? && current.value in gs && current.value.name != "")
        && (!failed && gs != [] && TimesAgree(gs) ==> IsMaximal(gs, current.value))
        && (failed && gs != [] ==> exists g :: g in gs && g.name == "" && (TimesAgree(gs) ==> IsMaximal(gs, g)))
    {
      var ordered: seq<Gtp> := [];
      for i := 0 to |order|
        invariant ordered == Gathered(gtps, order[..i])
      {
        assert order[..i + 1][..i] == order[..i];
        ordered := ordered + if order[i] in gtps then gtps[order[i]] else [];
      }
      assert order[..|order|] == order;
      ghost var gs := ordered;
      if |ordered| == 0 {
        if current.Some? && updateFails {
          return true;
        }
        current := None;
        return false;
      } else if |ordered| > 1 {
        ordered := SortSlice(ordered, Before);
      }
      FirstIsMaximal(gs, ordered);
      if ordered[0].name == "" {
        return true;
      }
      current := Some(ordered[0]);
      failed := false;
    }
  }

  lemma FirstIsMaximal(gs: seq<Gtp>, sorted: seq<Gtp>)
    requires gs != [] && multiset(sorted) == multiset(gs)
    requires |gs| > 1 && WeakOrder(gs, Before) ==> Sorted(sorted, Before)
    ensures |sorted| == |gs| && sorted[0] in gs
    ensures TimesAgree(gs) ==> IsMaximal(gs, sorted[0])
  {
    assert |sorted| == |multiset(gs)| == |gs|;
    assert sorted[0] in multiset(sorted);
    if TimesAgree(gs) {
      WeakOrderExactly(gs);
      forall g | g in gs
        ensures !Before(g, sorted[0])
      {
        assert g in multiset(gs);
        var i :| 0 <= i < |sorted| && sorted[i] == g;
        if i == 0 && Before(g, g) {
          BeforeAsymmetric(g, g);
        }
      }
    }
  }

  // ----- possible picks -------------------------------------------------------------------------------

  lemma PutFirst(gs: seq<Gtp>, p: Gtp) returns (rest: seq<Gtp>)
    requires p in gs
    ensures multiset([p] + rest) == multiset(gs)
  {
    var i :| 0 <= i < |gs| && gs[i] == p;
    rest := Without(gs, i);
    WithoutCounts(gs, i);
  }

  lemma MaximalCanBePicked(gs: seq<Gtp>, p: Gtp)
    requires WeakOrder(gs, Before) && IsMaximal(gs, p)
    ensures CanPick(gs, p)
  {
    var rest := PutFirst(gs, p);
    SameMembers([p] + rest, gs);
    assert forall x :: x in rest ==> x in [p] + rest;
    var ordered := Sortable(rest, Before);
    SameMembers(rest, ordered);
    var sorted := [p] + ordered;
    forall i, j | 0 <= i < j < |sorted|
      ensures !Before(sorted[j], sorted[i])
    {
      assert sorted[j] == ordered[j - 1] && ordered[j - 1] in rest;
    }
    assert SortResult(gs, sorted) && sorted[0] == p;
  }

  lemma AnyCanBePicked(gs: seq<Gtp>, p: Gtp)
    requires !WeakOrder(gs, Before) && p in gs
    ensures CanPick(gs, p)
  {
    var rest := PutFirst(gs, p);
    assert SortResult(gs, [p] + rest) && ([p] + rest)[0] == p;
  }

  /** The possible picks: the maxima when the times agree, and any candidate otherwise. */
  lemma CanPickExactly(gs: seq<Gtp>, p: Gtp)
    ensures CanPick(gs, p) <==> if TimesAgree(gs) then IsMaximal(gs, p) else p in gs
  {
    WeakOrderExactly(gs);
    if sorted :| SortResult(gs, sorted) && sorted != [] && sorted[0] == p {
      SameMembers(gs, sorted);
      FirstIsMaximal(gs, sorted);
    }
    if TimesAgree(gs) && IsMaximal(gs, p) {
      MaximalCanBePicked(gs, p);
    }
    if !TimesAgree(gs) && p in gs {
      AnyCanBePicked(gs, p);
    }
  }

  ghost predicate OnePick(gs: seq<Gtp>) {
    forall p, q :: CanPick(gs, p) && CanPick(gs, q) ==> p == q
  }

  /** The pick is determined exactly when the times agree and the top candidates are one policy. */
  lemma PickDeterminedExactly(gs: seq<Gtp>)
    ensures OnePick(gs) <==> TimesAgree(gs) && OneTop(gs)
  {
    if TimesAgree(gs) && OneTop(gs) {
      forall p, q | CanPick(gs, p) && CanPick(gs, q)
        ensures p == q
      {
        CanPickExactly(gs, p);
        CanPickExactly(gs, q);
      }
    }
    if OnePick(gs) {
      forall a, b, c | a in gs && b in gs && c in gs
        ensures Agree(a, b, c)
      {
        CanPickExactly(gs, a);
        CanPickExactly(gs, b);
      }
      forall p, q | IsMaximal(gs, p) && IsMaximal(gs, q)
        ensures p == q
      {
        CanPickExactly(gs, p);
        CanPickExactly(gs, q);
      }
    }
  }

  // ----- mixed policies -------------------------------------------------------------------------------

  /** A policy without an update time, created between two that have one, whose update times
      contradict their creation times: each of the three comes before another of them, so
      none of them is the most recent and the comparator is no order. */
  lemma MixedPoliciesCycle(a: Gtp, b: Gtp, c: Gtp)
    requires Priority(a) == Priority(b) == Priority(c)
    requires a.updatedAt.Some? && b.updatedAt.None? && c.updatedAt.Some?
    requires a.created < b.created < c.created && Less(c.updatedAt.value, a.updatedAt.value)
    ensures Before(a, c) && Before(c, b) && Before(b, a)
    ensures !WeakOrder([a, b, c], Before)
    ensures forall p :: !IsMaximal([a, b, c], p)
  {
    assert a in [a, b, c] && b in [a, b, c] && c in [a, b, c];
    BeforeAsymmetric(a, c);
    BeforeAsymmetric(c, b);
  }
}
