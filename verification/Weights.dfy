/** Traffic weights of route destinations: even shares, scaling to a locality's share, and
    the totals that come out. */
module Weights {
  import opened Mesh
  import opened Prelude
  import VsMerge

  function Sum(ws: seq<int>): int {
    if ws == [] then 0 else ws[0] + Sum(ws[1..])
  }

  lemma {:induction false} SumAppend(a: seq<int>, b: seq<int>)
    ensures Sum(a + b) == Sum(a) + Sum(b)
  {
    if a == [] {
      assert a + b == b;
    } else {
      assert (a + b)[1..] == a[1..] + b;
      SumAppend(a[1..], b);
    }
  }

  // ----- even shares -----------------------------------------------------------------------------

  /** 100 in `n` whole shares, the larger ones first. */
  function Shares(n: nat): seq<int> {
    if n == 0 then [] else seq(n, i => 100 / n + if i < 100 % n then 1 else 0)
  }

  method GetWeightSplits(n: nat) returns (weights: array<int>)
    ensures fresh(weights) && weights[..] == Shares(n)
  {
    weights := new int[n];
    if n == 0 {
      return;
    }
    var base, r := 100 / n, 100 % n;
    for i := 0 to n
      invariant r == if i < 100 % n then 100 % n - i else 0
      invariant forall k :: 0 <= k < i ==> weights[k] == Shares(n)[k]
    {
      if r > 0 {
        weights[i] := base + 1;
        r := r - 1;
      } else {
        weights[i] := base;
      }
    }
  }

  lemma OneMore(k: int, b: int)
    ensures k * b == (k - 1) * b + b
  {
  }

  lemma {:induction false} SharesPrefixSum(n: nat, k: nat)
    requires 0 < n && k <= n
    ensures Sum(Shares(n)[..k]) == k * (100 / n) + if k < 100 % n then k else 100 % n
  {
    if k > 0 {
      SharesPrefixSum(n, k - 1);
      assert Shares(n)[..k] == Shares(n)[..k - 1] + [Shares(n)[k - 1]];
      SumAppend(Shares(n)[..k - 1], [Shares(n)[k - 1]]);
      OneMore(k, 100 / n);
    }
  }

  /** The shares of any number of destinations total exactly 100, differ by at most one, and
      do not increase. */
  lemma SharesAreFair(n: nat)
    requires 0 < n
    ensures |Shares(n)| == n && Sum(Shares(n)) == 100
    ensures forall i, j :: 0 <= i < n && 0 <= j < n ==> -1 <= Shares(n)[i] - Shares(n)[j] <= 1
    ensures forall i, j :: 0 <= i < j < n ==> Shares(n)[i] >= Shares(n)[j]
  {
    SharesPrefixSum(n, n);
    assert Shares(n)[..n] == Shares(n);
    assert n * (100 / n) + 100 % n == 100;
  }

  /** The weights after the pass: lists of two or more without a positive total get even
      shares, all others stay. */
  function WithShares(ws: seq<int>): seq<int> {
    if |ws| > 1 && Sum(ws) <= 0 then Shares(|ws|) else ws
  }

  /** A second pass changes nothing; the first changes exactly lists of two or more without a
      positive total. */
  lemma WithSharesTwice(ws: seq<int>)
    ensures WithShares(WithShares(ws)) == WithShares(ws)
    ensures WithShares(ws) == ws <==> |ws| <= 1 || Sum(ws) > 0
  {
    if |ws| > 1 {
      SharesAreFair(|ws|);
    }
  }

  /** After the pass a list of two or more totals 100 exactly when it did before or had no
      positive total; any other positive total survives. */
  lemma TotalAfterShares(ws: seq<int>)
    requires |ws| > 1
    ensures Sum(WithShares(ws)) == 100 <==> Sum(ws) == 100 || Sum(ws) <= 0
    ensures Sum(WithShares(ws)) > 0
  {
    SharesAreFair(|ws|);
  }

  // ----- the pass over the shared destination objects ------------------------------------------------

  class RouteDestination {
    const host: string
    const port: nat
    var weight: int

    constructor (host: string, port: nat, weight: int)
      ensures this.host == host && this.port == port && this.weight == weight
    {
      this.host, this.port, this.weight := host, port, weight;
    }
  }

  function WeightsOf(dests: seq<RouteDestination>): (ws: seq<int>)
    reads dests
    ensures |ws| == |dests| && forall i :: 0 <= i < |dests| ==> ws[i] == dests[i].weight
  {
    seq(|dests|, i requires 0 <= i < |dests| reads dests => dests[i].weight)
  }

  predicate Distinct(dests: seq<RouteDestination>) {
    forall i, j :: 0 <= i < j < |dests| ==> dests[i] != dests[j]
  }

  method TotalWeight(dests: seq<RouteDestination>) returns (total: int)
    ensures total == Sum(WeightsOf(dests))
  {
    total := 0;
    ghost var ws := WeightsOf(dests);
    for i := 0 to |dests|
      invariant total == Sum(ws[..i])
    {
      assert ws[..i + 1] == ws[..i] + [ws[i]];
      SumAppend(ws[..i], [ws[i]]);
      total := total + dests[i].weight;
    }
    assert ws[..|ws|] == ws;
  }

  /** One list of destinations. */
  method AddWeights(dests: seq<RouteDestination>)
    requires Distinct(dests)
    modifies dests
    ensures WeightsOf(dests) == WithShares(old(WeightsOf(dests)))
  {
    if |dests| > 1 {
      var total := TotalWeight(dests);
      if total == 100 {
        return;
      }
      if total > 0 {
        return;
      }
      var splits := GetWeightSplits(|dests|);
      for i := 0 to |dests|
        invariant splits[..] == Shares(|dests|)
        invariant forall k :: 0 <= k < i ==> dests[k].weight == splits[k]
      {
        dests[i].weight := splits[i];
      }
    }
  }

  predicate Separate(lists: seq<seq<RouteDestination>>) {
    && (forall i :: 0 <= i < |lists| ==> Distinct(lists[i]))
    && (forall i, j :: 0 <= i < |lists| && 0 <= j < |lists| && i != j ==>
          forall d :: d in lists[i] ==> d !in lists[j])
  }

  function AllOf(lists: seq<seq<RouteDestination>>): set<RouteDestination> {
    set i, k | 0 <= i < |lists| && 0 <= k < |lists[i]| :: lists[i][k]
  }

  /** All lists of the destination map, in any order; no object is in two of them. */
  method AddWeightsToRouteDestinations(lists: seq<seq<RouteDestination>>)
    requires Separate(lists)
    modifies AllOf(lists)
    ensures forall i :: 0 <= i < |lists| ==> WeightsOf(lists[i]) == WithShares(old(WeightsOf(lists[i])))
  {
    for n := 0 to |lists|
      invariant forall i :: 0 <= i < n ==> WeightsOf(lists[i]) == WithShares(old(WeightsOf(lists[i])))
      invariant forall i :: n <= i < |lists| ==> WeightsOf(lists[i]) == old(WeightsOf(lists[i]))
    {
      assert forall k :: 0 <= k < |lists[n]| ==> lists[n][k] in AllOf(lists);
      label before:
      AddWeights(lists[n]);
      forall i | 0 <= i < |lists| && i != n
        ensures WeightsOf(lists[i]) == old@before(WeightsOf(lists[i]))
      {
        assert forall k :: 0 <= k < |lists[i]| ==> lists[i][k] in lists[i];
      }
    }
  }

  // ----- scaling ------------------------------------------------------------------------------------------

  /** Each weight's share of `w` percent, truncated. */
  function Scaled(ws: seq<int>, w: nat): seq<int> {
    seq(|ws|, i requires 0 <= i < |ws| => ws[i] * w / 100)
  }

  /** Truncation loses less than one per destination. */
  lemma {:induction false} ScaledSum(ws: seq<int>, w: nat)
    ensures w * Sum(ws) - 99 * |ws| <= 100 * Sum(Scaled(ws, w)) <= w * Sum(ws)
  {
    if ws != [] {
      ScaledSum(ws[1..], w);
      assert Scaled(ws, w)[1..] == Scaled(ws[1..], w);
      var t := ws[0] * w;
      assert t - 99 <= 100 * (t / 100) <= t;
      assert w * Sum(ws) == t + w * Sum(ws[1..]);
    }
  }

  /** Weights that total 100, scaled to `w`, total more than `w - n` and at most `w`. */
  lemma ScaledTotal(ws: seq<int>, w: nat)
    requires ws != [] && Sum(ws) == 100
    ensures w - |ws| < Sum(Scaled(ws, w)) <= w
  {
    ScaledSum(ws, w);
    assert w * Sum(ws) == 100 * w;
  }

  function DestWeights(dests: seq<Destination>): seq<int> {
    seq(|dests|, i requires 0 <= i < |dests| => dests[i].weight)
  }

  /** A custom destination of weight `w` replaced by routes that total 100: they carry more
      than `w - n` and at most `w`; a single route carries exactly `w`. */
  lemma ReplacementCarriesTheWeight(dests: seq<Destination>, w: nat)
    requires dests != [] && Sum(DestWeights(dests)) == 100
    requires forall i :: 0 <= i < |dests| ==> dests[i].weight >= 0
    ensures w - |dests| < Sum(DestWeights(VsMerge.Adjusted(dests, w))) <= w
    ensures |dests| == 1 ==> Sum(DestWeights(VsMerge.Adjusted(dests, w))) == w
  {
    var ws: seq<nat> := seq(|dests|, i requires 0 <= i < |dests| => dests[i].weight);
    assert ws == DestWeights(dests);
    if |dests| == 1 {
      assert DestWeights(VsMerge.Adjusted(dests, w)) == [w];
    } else {
      ScaledTotal(ws, w);
      assert forall i :: 0 <= i < |dests| ==> dests[i].weight * w >= 0 by {
        forall i | 0 <= i < |dests| ensures dests[i].weight * w >= 0 {
          ProductNonNegative(dests[i].weight, w);
        }
      }
      assert DestWeights(VsMerge.Adjusted(dests, w)) == Scaled(ws, w);
    }
  }

  /** What a destination resolves to has no negative weights and totals 100. */
  predicate ResolvesToWhole(routes: seq<VsMerge.Route>, cache: VsMerge.HostCache, d: Destination) {
    var r := VsMerge.Resolve(routes, cache, d.host);
    r.Some? ==> r.value != [] && Sum(DestWeights(r.value)) == 100 && forall i :: 0 <= i < |r.value| ==> r.value[i].weight >= 0
  }

  /** A custom route of weighted destinations keeps its total when they are replaced, up to
      less than one for each resulting destination. */
  lemma {:induction false} RouteKeepsItsTotal(
      routes: seq<VsMerge.Route>, cache: VsMerge.HostCache, dests: seq<Destination>)
    requires forall i :: 0 <= i < |dests| ==> dests[i].weight > 0 && ResolvesToWhole(routes, cache, dests[i])
    ensures
      var replaced := VsMerge.ReplacedAll(routes, cache, dests);
      && Sum(DestWeights(dests)) - |replaced| <= Sum(DestWeights(replaced)) <= Sum(DestWeights(dests))
      && (dests != [] ==> Sum(DestWeights(dests)) - |replaced| < Sum(DestWeights(replaced)))
  {
    if dests != [] {
      var n := |dests| - 1;
      var d, before := dests[n], VsMerge.ReplacedAll(routes, cache, dests[..n]);
      RouteKeepsItsTotal(routes, cache, dests[..n]);
      var here := VsMerge.Replaced(routes, cache, d);
      assert DestWeights(dests) == DestWeights(dests[..n]) + [d.weight];
      assert DestWeights(before + here) == DestWeights(before) + DestWeights(here);
      SumAppend(DestWeights(dests[..n]), [d.weight]);
      SumAppend(DestWeights(before), DestWeights(here));
      OneReplacement(routes, cache, d);
    }
  }

  lemma OneReplacement(routes: seq<VsMerge.Route>, cache: VsMerge.HostCache, d: Destination)
    requires d.weight > 0 && ResolvesToWhole(routes, cache, d)
    ensures
      var here := VsMerge.Replaced(routes, cache, d);
      d.weight - |here| < Sum(DestWeights(here)) <= d.weight
  {
    var r := VsMerge.Resolve(routes, cache, d.host);
    if r.Some? {
      ReplacementCarriesTheWeight(r.value, d.weight);
    } else {
      assert DestWeights([d]) == [d.weight];
    }
  }

  lemma ProductNonNegative(a: nat, b: nat)
    ensures a * b >= 0
  {
  }
}
