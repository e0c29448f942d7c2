/** The cluster registry of `ClusterProvider`: the two stored atoms as fields,
    the mutators `addCluster`, `deleteCluster` and `setCluster`, the sorted
    `clusters` view and `getExplorerUrl`. */
module ClusterRegistry {
  import opened Wrappers
  import opened NameOrder
  import opened Clusters
  import opened ClusterSort

  class Registry {
    /** `clusterAtom`: the selected cluster. */
    var selected: Cluster
    /** `clustersAtom`: the stored list. */
    var clusters: seq<Cluster>

    /** Both atoms at their defaults, as on first use when storage is empty. */
    constructor (apiUrl: string -> string)
      ensures selected == DefaultClusters(apiUrl)[0]
      ensures clusters == DefaultClusters(apiUrl)
    {
      selected := DefaultClusters(apiUrl)[0];
      clusters := DefaultClusters(apiUrl);
    }

    /** Both atoms as read back from storage. */
    constructor Restore(storedSelected: Cluster, storedClusters: seq<Cluster>)
      ensures selected == storedSelected && clusters == storedClusters
    {
      selected := storedSelected;
      clusters := storedClusters;
    }

    /** The context's `clusters`: the flagged list, sorted in place by name. */
    method SortedClusters() returns (view: seq<Cluster>)
      ensures IsNameSorted(view, ActiveClusters(clusters, selected))
    {
      var flagged := ActiveClusters(clusters, selected);
      var a := new Cluster[|flagged|](i requires 0 <= i < |flagged| => flagged[i]);
      assert a[..] == flagged;
      SortByName(a);
      view := a[..];
    }

    /** `addCluster`: when constructing a connection to the endpoint
        succeeds (`probeOk`), stores the sorted, flagged list with `cluster`
        appended, whatever its name; otherwise stores nothing. */
    method AddCluster(cluster: Cluster, probeOk: bool)
      modifies this
      ensures selected == old(selected)
      ensures probeOk ==> |clusters| == |old(clusters)| + 1 && clusters[|old(clusters)|] == cluster
      ensures probeOk ==> IsNameSorted(clusters[..|old(clusters)|], ActiveClusters(old(clusters), old(selected)))
      ensures probeOk ==> multiset(clusters) == multiset(ActiveClusters(old(clusters), old(selected))) + multiset{cluster}
      ensures !probeOk ==> clusters == old(clusters)
    {
      var view := SortedClusters();
      assert |view| == |old(clusters)| by {
        assert |multiset(view)| == |multiset(ActiveClusters(clusters, selected))|;
      }
      if probeOk {
        clusters := view + [cluster];
        assert clusters[..|view|] == view;
      }
    }

    /** `deleteCluster`: stores the sorted, flagged list without the entries
        named like `cluster`; the selection stays as it was. */
    method DeleteCluster(cluster: Cluster)
      modifies this
      ensures selected == old(selected)
      ensures exists view ::
        IsNameSorted(view, ActiveClusters(old(clusters), old(selected))) && clusters == WithoutName(view, cluster.name)
      ensures SortedByName(clusters)
      ensures multiset(clusters) == multiset(WithoutName(ActiveClusters(old(clusters), old(selected)), cluster.name))
      ensures !HasName(old(clusters), cluster.name) ==>
        multiset(clusters) == multiset(ActiveClusters(old(clusters), old(selected)))
      ensures cluster.name == selected.name ==>
        ActiveCluster(clusters, selected) == if clusters == [] then None else Some(clusters[0].(active := Some(false)))
    {
      ghost var flagged := ActiveClusters(clusters, selected);
      var view := SortedClusters();
      clusters := WithoutName(view, cluster.name);
      WithoutNameSorted(view, cluster.name);
      WithoutNamePermutation(view, flagged, cluster.name);
      if !HasName(old(clusters), cluster.name) {
        assert !HasName(flagged, cluster.name);
        WithoutAbsentName(flagged, cluster.name);
      }
      if cluster.name == selected.name && clusters != [] {
        assert !HasName(clusters, selected.name) by {
          forall i | 0 <= i < |clusters| ensures clusters[i].name != selected.name {
            assert clusters[i] in clusters;
          }
        }
        ActiveClusterFallback(clusters, selected);
      }
    }

    /** `setCluster`: replaces the selection and nothing else. */
    method SetCluster(cluster: Cluster)
      modifies this
      ensures selected == cluster
      ensures clusters == old(clusters)
    {
      selected := cluster;
    }

    /** `getExplorerUrl(path)`: built from the active cluster; it throws
        (None) only when the stored list is empty. */
    function GetExplorerUrl(path: string, enc: string -> string): (r: Option<string>)
      reads this
      ensures r.Some? <==> clusters != []
      ensures r.Some? ==> |ExplorerBase + path| <= |r.value| && r.value[..|ExplorerBase + path|] == ExplorerBase + path
      ensures clusters != [] ==>
        r == Some(ExplorerBase + path + ClusterUrlParam(ActiveCluster(clusters, selected).value, enc))
      ensures clusters != [] && ActiveCluster(clusters, selected).value.network == Some(Mainnet) ==>
        r == Some(ExplorerBase + path)
    {
      ExplorerUrl(ActiveCluster(clusters, selected), path, enc)
    }
  }

  /** The explorer URL depends on the registry only through its active cluster. */
  lemma GetExplorerUrlActiveOnly(r1: Registry, r2: Registry, path: string, enc: string -> string)
    requires ActiveCluster(r1.clusters, r1.selected) == ActiveCluster(r2.clusters, r2.selected)
    ensures r1.GetExplorerUrl(path, enc) == r2.GetExplorerUrl(path, enc)
  {
  }

  /** With distinct names, at most one entry of the flagged list is active,
      and one is exactly when the selected name is stored. */
  lemma ActiveFlagsUnique(stored: seq<Cluster>, selected: Cluster)
    requires forall i, j :: 0 <= i < j < |stored| ==> stored[i].name != stored[j].name
    ensures forall i, j :: 0 <= i < j < |stored| ==>
      !(ActiveClusters(stored, selected)[i].active == Some(true) && ActiveClusters(stored, selected)[j].active == Some(true))
    ensures HasName(stored, selected.name) <==>
      exists i :: 0 <= i < |stored| && ActiveClusters(stored, selected)[i].active == Some(true)
  {
    if HasName(stored, selected.name) {
      var i :| 0 <= i < |stored| && stored[i].name == selected.name;
      assert ActiveClusters(stored, selected)[i].active == Some(true);
    }
  }

  /** Selecting "local" on the default list makes it the active cluster. */
  lemma SelectLocalOnDefaults(apiUrl: string -> string, local: Cluster)
    requires local.name == "local"
    ensures ActiveCluster(DefaultClusters(apiUrl), local).Some?
    ensures ActiveCluster(DefaultClusters(apiUrl), local).value.name == "local"
  {
    ActiveClusterSelected(DefaultClusters(apiUrl), local, 1);
  }

  /** On the defaults the active cluster is devnet, so a transaction link
      carries `?cluster=devnet`. */
  lemma DefaultExplorerUrl(apiUrl: string -> string, enc: string -> string)
    ensures ExplorerUrl(ActiveCluster(DefaultClusters(apiUrl), DefaultClusters(apiUrl)[0]), "tx/ABC", enc)
      == Some("https://explorer.solana.com/tx/ABC?cluster=devnet")
  {
    ActiveClusterSelected(DefaultClusters(apiUrl), DefaultClusters(apiUrl)[0], 0);
    assert ExplorerBase + "tx/ABC" + "?cluster=devnet" == "https://explorer.solana.com/tx/ABC?cluster=devnet";
  }
}
