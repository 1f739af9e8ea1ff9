/** From building to writing: what the source clusters receive of the entries that were built. */
module EndpointFlow {
  import opened Mesh
  import opened Prelude
  import EndpointBuild
  import EndpointLocalise
  import EndpointOrder

  /** All endpoints other than `k` are at other clusters' ingresses, which keep the host. */
  predicate RemoteElsewhere(
      t: EndpointBuild.Trigger, clusters: seq<EndpointBuild.Cluster>, host: string, ingress: string, eps: seq<Endpoint>, k: Option<nat>)
  {
    forall j :: 0 <= j < |eps| && Some(j) != k ==>
      eps[j].address != ingress && EndpointOrder.KeeperAt(t, clusters, host, eps[j].address)
  }

  /** A built entry meets what the localise loop needs: every endpoint has an address, and
      exactly one is behind the source cluster's ingress, if a cluster there keeps the host. */
  lemma BuiltForLocalising(
      t: EndpointBuild.Trigger, clusters: seq<EndpointBuild.Cluster>, host: string, src: EndpointLocalise.Source)
    returns (k: Option<nat>)
    requires EndpointOrder.DistinctIds(clusters) && EndpointOrder.Agree(t, clusters, host)
    requires src.ingress != "" && forall i :: 0 <= i < |clusters| ==> clusters[i].ingress != ""
    ensures
      var eps := EndpointBuild.Of(EndpointBuild.BuildAll(t, clusters).0, host);
      && (k.Some? <==> EndpointOrder.KeeperAt(t, clusters, host, src.ingress))
      && (k.Some? ==> EndpointLocalise.OneIngress(src, eps, k.value))
      && (k.None? ==> forall j :: 0 <= j < |eps| ==> !EndpointLocalise.Matches(src, eps[j]))
      && RemoteElsewhere(t, clusters, host, src.ingress, eps, k)
      && (forall j :: 0 <= j < |eps| ==> eps[j].address != "")
  {
    var eps := EndpointBuild.Of(EndpointBuild.BuildAll(t, clusters).0, host);
    EndpointOrder.BuiltAddresses(t, clusters, host);
    forall j | 0 <= j < |eps|
      ensures eps[j].address != "" && EndpointOrder.KeeperAt(t, clusters, host, eps[j].address)
    {
      assert EndpointBuild.HasAddress(eps, eps[j].address);
    }
    k := None;
    if EndpointBuild.HasAddress(eps, src.ingress) {
      var j :| 0 <= j < |eps| && eps[j].address == src.ingress;
      k := Some(j);
    }
  }

  /** Main result, from the found clusters to the written entries: when clusters behind one
      ingress agree, each source cluster is written exactly one localised entry, with its local
      endpoints for its own ingress, and all others still at the ingresses of clusters that
      keep the host; where no cluster behind its ingress keeps the host, only the plain entry
      is written, if any. The shared entry is left as it was built. */
  lemma BuiltThenLocalised(
      t: EndpointBuild.Trigger, clusters: seq<EndpointBuild.Cluster>, host: string, src: EndpointLocalise.Source)
    returns (k: Option<nat>)
    requires EndpointOrder.DistinctIds(clusters) && EndpointOrder.Agree(t, clusters, host)
    requires src.ingress != "" && forall i :: 0 <= i < |clusters| ==> clusters[i].ingress != ""
    ensures
      var eps := EndpointBuild.Of(EndpointBuild.BuildAll(t, clusters).0, host);
      var written := EndpointLocalise.Entry(src, host, eps);
      && written.1 == eps
      && (k.Some? <==> EndpointOrder.KeeperAt(t, clusters, host, src.ingress))
      && RemoteElsewhere(t, clusters, host, src.ingress, eps, k)
      && match k
         case None => written.0 == EndpointLocalise.PlainWrite(src, eps)
         case Some(at) =>
           && at < |eps| && eps[at].address == src.ingress
           && written.0 == EndpointLocalise.PlainWrite(src, eps) + EndpointLocalise.LocalisedWrite(src, host, eps, at)
  {
    k := BuiltForLocalising(t, clusters, host, src);
    var eps := EndpointBuild.Of(EndpointBuild.BuildAll(t, clusters).0, host);
    EndpointLocalise.EntryRestoredExactly(src, host, eps);
    if k.Some? {
      EndpointLocalise.LocalisedEntry(src, host, eps, k.value);
    } else {
      EndpointLocalise.NoMatchFrom(src, host, eps, 0, EndpointLocalise.PlainWrite(src, eps));
    }
  }
}
