/** Whether a deletion leaves other policies' filters alone: record keys and filter names are
    made by concatenation, and can collide. */
module FilterNames {
  import opened Prelude
  import opened FilterRecord

  predicate SamePolicy(p: Policy, q: Policy) {
    p.name == q.name && p.identity == q.identity && p.env == q.env
  }

  /** The two share a record key, or the names of their filters. */
  predicate Collide(p: Policy, q: Policy) {
    || p.name + p.identity + p.env == q.name + q.identity + q.env
    || (p.plugin == q.plugin && p.name + p.env + p.identity == q.name + q.env + q.identity)
  }

  /** Only versions of one policy collide. */
  ghost predicate Apart(policies: set<Policy>) {
    forall p, q :: p in policies && q in policies && Collide(p, q) ==> SamePolicy(p, q)
  }

  // ----- what is recorded, and for whom -----------------------------------------------------------

  ghost predicate NamedBy(policies: set<Policy>, key: string, x: Place) {
    exists p :: p in policies && Key(p) == key && NamedAfter(x, p)
  }

  /** What is recorded was recorded for one of `policies`. */
  ghost predicate RecordsNamed(s: System, policies: set<Policy>) {
    forall k, x :: Recorded(s.records, k, x) ==> NamedBy(policies, k, x)
  }

  lemma StepKeepsNames(s: System, op: Op, clusters: set<string>, policies: set<Policy>, t: System)
    requires RecordsNamed(s, policies) && op.p in policies && Step(s, op, clusters, t)
    ensures RecordsNamed(t, policies)
  {
    forall k, x | Recorded(t.records, k, x)
      ensures NamedBy(policies, k, x)
    {
      if !Recorded(s.records, k, x) {
        assert Key(op.p) == k && NamedAfter(x, op.p);
      }
    }
  }

  /** Over every run of operations on `policies`, whatever is recorded was recorded for one of them. */
  lemma {:induction false} RunKeepsNames(ss: seq<System>, ops: seq<Op>, clusters: set<string>, policies: set<Policy>, n: nat)
    requires Run(ss, ops, clusters) && RecordsNamed(ss[0], policies) && n <= |ops|
    requires forall i :: 0 <= i < |ops| ==> ops[i].p in policies
    ensures RecordsNamed(ss[n], policies)
  {
    if n > 0 {
      RunKeepsNames(ss, ops, clusters, policies, n - 1);
      assert Step(ss[n - 1], ops[n - 1], clusters, ss[n - 1 + 1]);
      StepKeepsNames(ss[n - 1], ops[n - 1], clusters, policies, ss[n]);
    }
  }

  ghost predicate OwnersIn(s: System, policies: set<Policy>) {
    forall x :: x in s.live ==> s.live[x] in policies
  }

  lemma {:induction false} RunKeepsOwners(ss: seq<System>, ops: seq<Op>, clusters: set<string>, policies: set<Policy>, n: nat)
    requires Run(ss, ops, clusters) && OwnersIn(ss[0], policies) && n <= |ops|
    requires forall i :: 0 <= i < |ops| ==> ops[i].p in policies
    ensures OwnersIn(ss[n], policies)
  {
    if n > 0 {
      RunKeepsOwners(ss, ops, clusters, policies, n - 1);
      assert Step(ss[n - 1], ops[n - 1], clusters, ss[n - 1 + 1]);
    }
  }

  // ----- policies that do not collide ---------------------------------------------------------------

  lemma RecordNamesTheOwner(s: System, p: Policy, clusters: set<string>, policies: set<Policy>, x: Place)
    requires Inv(s, clusters) && RecordsNamed(s, policies) && Apart(policies) && p in policies
    requires x in s.live && s.live[x] in policies && Recorded(s.records, Key(p), x)
    ensures SamePolicy(s.live[x], p)
  {
    assert NamedBy(policies, Key(p), x);
    var q :| q in policies && Key(q) == Key(p) && NamedAfter(x, q);
    assert Collide(q, p) && Collide(q, s.live[x]);
  }

  /** The filters of all policies but `p` that live in `s` live in `t`, for the same policies. */
  ghost predicate OthersSpared(s: System, p: Policy, t: System) {
    forall x :: x in s.live && !SamePolicy(s.live[x], p) ==> x in t.live && t.live[x] == s.live[x]
  }

  /** A deletion leaves every other policy's filters alone when no two policies collide. */
  lemma DeleteSparesOthers(
      s: System, p: Policy, clusters: set<string>, retain: bool, net: Network, failed: bool, t: System, policies: set<Policy>)
    requires Inv(s, clusters) && RecordsNamed(s, policies) && OwnersIn(s, policies) && Apart(policies) && p in policies
    requires EraseStep(s, p, clusters, retain, net, failed, t)
    ensures OthersSpared(s, p, t)
  {
    RecordedIsPlaced(s.records, Key(p));
    forall x | x in s.live && !SamePolicy(s.live[x], p)
      ensures !Recorded(s.records, Key(p), x)
    {
      if Recorded(s.records, Key(p), x) {
        RecordNamesTheOwner(s, p, clusters, policies, x);
      }
    }
  }

  /** A run of operations on `policies` from an empty system. */
  ghost predicate RunOf(ss: seq<System>, ops: seq<Op>, clusters: set<string>, policies: set<Policy>) {
    && Run(ss, ops, clusters) && ss[0] == System(map[], map[])
    && forall i :: 0 <= i < |ops| ==> ops[i].p in policies
  }

  /** So does each deletion in every run. */
  lemma RunSparesOthers(ss: seq<System>, ops: seq<Op>, clusters: set<string>, policies: set<Policy>, n: nat)
    requires RunOf(ss, ops, clusters, policies) && Apart(policies) && n < |ops| && ops[n].Erase?
    ensures OthersSpared(ss[n], ops[n].p, ss[n + 1])
  {
    RunKeepsInv(ss, ops, clusters, n);
    RunKeepsNames(ss, ops, clusters, policies, n);
    RunKeepsOwners(ss, ops, clusters, policies, n);
    var op := ops[n];
    assert Step(ss[n], op, clusters, ss[n + 1]);
    DeleteSparesOthers(ss[n], op.p, clusters, op.retain, op.net, op.failed, ss[n + 1], policies);
  }

  // ----- policies that do -----------------------------------------------------------------------------

  const EMPTY := System(map[], map[])

  function Served(x: Place): Outcome { Answered }

  /** The one filter of a policy for dependent "d" in version "v". */
  function Filter(p: Policy, cluster: string): Place {
    Place(cluster, FilterName(p.plugin, Digested(p), "d", "v"))
  }

  function WriteOf(p: Policy, cluster: string): Op {
    Write(p, ["d"], map["d" := {cluster}], ["v"], Served)
  }

  /** The system after that filter has been recorded and written. */
  function WithFilter(s: System, p: Policy, cluster: string): System {
    System(Put(s.records, Key(p), Filter(p, cluster)), s.live[Filter(p, cluster) := p])
  }

  lemma WriteHappens(s: System, p: Policy, clusters: set<string>, cluster: string)
    requires cluster in clusters
    ensures Step(s, WriteOf(p, cluster), clusters, WithFilter(s, p, cluster))
  {
    var t, x := WithFilter(s, p, cluster), Filter(p, cluster);
    TargetIs(p, clusters, cluster);
    PutAdds(s.records, Key(p), x);
    assert RecordsGrow(s.records, t.records, Key(p), {x});
    assert t.live == Written(s.live, p, {x}, Served);
  }

  lemma TargetIs(p: Policy, clusters: set<string>, cluster: string)
    requires cluster in clusters
    ensures Targets(p, clusters, ["d"], map["d" := {cluster}], ["v"]) == {Filter(p, cluster)}
  {
    assert "d" in ["d"] && "v" in ["v"] && Lives(map["d" := {cluster}], "d", cluster);
  }

  /** Everything recorded under the policy's key has been deleted, and the record is gone. */
  function Erased(s: System, p: Policy, clusters: set<string>): System {
    System(s.records - {Key(p)}, Deleted(s.live, Doomed(s, p, clusters), Served))
  }

  lemma EraseHappens(s: System, p: Policy, clusters: set<string>)
    requires Doomed(s, p, clusters) <= s.live.Keys
    ensures Step(s, Erase(p, false, Served, false), clusters, Erased(s, p, clusters))
  {
    assert AllDeleted(s.live, Doomed(s, p, clusters), Served);
  }

  /** After the writes of two policies, what is recorded under either key lives. */
  lemma BothLive(p: Policy, q: Policy, cluster: string)
    ensures
      var s := WithFilter(WithFilter(EMPTY, p, cluster), q, cluster);
      && (forall k, x :: Recorded(s.records, k, x) <==>
            (k == Key(p) && x == Filter(p, cluster)) || (k == Key(q) && x == Filter(q, cluster)))
      && s.live.Keys == {Filter(p, cluster), Filter(q, cluster)} && s.live[Filter(q, cluster)] == q
  {
    PutAdds(EMPTY.records, Key(p), Filter(p, cluster));
    PutAdds(WithFilter(EMPTY, p, cluster).records, Key(q), Filter(q, cluster));
  }

  /** Write both, delete the one: the other's filter is gone. */
  lemma CollisionDeletes(p: Policy, q: Policy, clusters: set<string>, cluster: string)
    returns (ss: seq<System>, ops: seq<Op>)
    requires cluster in clusters && Collide(p, q) && !SamePolicy(p, q)
    ensures RunOf(ss, ops, clusters, {p, q}) && |ops| == 3 && ops[2].Erase? && ops[2].p == p
    ensures !OthersSpared(ss[2], p, ss[3])
  {
    var s1 := WithFilter(EMPTY, p, cluster);
    var s2 := WithFilter(s1, q, cluster);
    var s3 := Erased(s2, p, clusters);
    BothLive(p, q, cluster);
    RecordedIsPlaced(s2.records, Key(p));
    WriteHappens(EMPTY, p, clusters, cluster);
    WriteHappens(s1, q, clusters, cluster);
    EraseHappens(s2, p, clusters);
    ss := [EMPTY, s1, s2, s3];
    ops := [WriteOf(p, cluster), WriteOf(q, cluster), Erase(p, false, Served, false)];
    ThreeSteps(EMPTY, s1, s2, s3, ops, clusters);
    var x := Filter(q, cluster);
    assert Recorded(s2.records, Key(p), x);
    assert x in Doomed(s2, p, clusters);
    assert x in s2.live && s2.live[x] == q && x !in s3.live;
  }

  lemma ThreeSteps(s0: System, s1: System, s2: System, s3: System, ops: seq<Op>, clusters: set<string>)
    requires |ops| == 3 && Step(s0, ops[0], clusters, s1) && Step(s1, ops[1], clusters, s2) && Step(s2, ops[2], clusters, s3)
    ensures Run([s0, s1, s2, s3], ops, clusters)
  {
  }

  ghost predicate DeletionsSpare(clusters: set<string>, policies: set<Policy>) {
    forall ss: seq<System>, ops: seq<Op>, n: nat ::
      RunOf(ss, ops, clusters, policies) && n < |ops| && ops[n].Erase? ==> OthersSpared(ss[n], ops[n].p, ss[n + 1])
  }

  /** Main result: every deletion in every run leaves the other policies' filters alone exactly
      when no two policies collide. */
  lemma SparedExactly(clusters: set<string>, policies: set<Policy>)
    requires clusters != {}
    ensures DeletionsSpare(clusters, policies) <==> Apart(policies)
  {
    if Apart(policies) {
      forall ss: seq<System>, ops: seq<Op>, n: nat | RunOf(ss, ops, clusters, policies) && n < |ops| && ops[n].Erase?
        ensures OthersSpared(ss[n], ops[n].p, ss[n + 1])
      {
        RunSparesOthers(ss, ops, clusters, policies, n);
      }
    } else {
      var p, q :| p in policies && q in policies && Collide(p, q) && !SamePolicy(p, q);
      var cluster :| cluster in clusters;
      var ss, ops := CollisionDeletes(p, q, clusters, cluster);
      assert RunOf(ss, ops, clusters, policies) && ops[2].Erase? && !OthersSpared(ss[2], ops[2].p, ss[2 + 1]);
    }
  }

  /** Both kinds of collision occur: names and identities that concatenate alike give one
      record key, names and environments one digested text. */
  lemma ConcatenationsCollide(plugin: string)
    ensures
      var p, q := Policy("a", "b", "e2e", plugin), Policy("ab", "", "e2e", plugin);
      Key(p) == Key(q) && Digested(p) != Digested(q) && !SamePolicy(p, q)
    ensures
      var p, q := Policy("a", "b", "e", plugin), Policy("ae", "", "b", plugin);
      Digested(p) == Digested(q) && Key(p) != Key(q) && !SamePolicy(p, q)
  {
    assert "a" + "b" + "e2e" == "ab" + "" + "e2e";
    assert ("a" + "e2e" + "b")[1] != ("ab" + "e2e" + "")[1];
    assert "a" + "e" + "b" == "ae" + "b" + "";
    assert ("a" + "b" + "e")[1] != ("ae" + "" + "b")[1];
    assert |"a"| != |"ab"| && |"a"| != |"ae"|;
  }

  /** In any sound state: with one record key, a successful deletion of the one policy takes
      all filters of the other. */
  lemma CollidingKeysDeleteOthers(s: System, p: Policy, q: Policy, clusters: set<string>, retain: bool, net: Network, t: System)
    requires Inv(s, clusters) && Key(p) == Key(q)
    requires EraseStep(s, p, clusters, retain, net, false, t)
    ensures forall x :: x in s.live && SamePolicy(s.live[x], q) ==> x !in t.live
  {
    RecordedIsPlaced(s.records, Key(p));
  }
}
