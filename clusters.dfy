/** The cluster records of components/cluster/cluster-data-access.tsx and the
    pure derivations over them: the default list, the list re-tagged with
    `active` flags, the active cluster, the name filter used by delete, and
    the explorer URL. */
module Clusters {
  import opened Wrappers

  /** `ClusterNetwork`. Its string values ("mainnet-beta", ...) play no part
      in the logic, which only compares enum members. */
  datatype Network = Mainnet | Testnet | Devnet | Custom

  /** `Cluster`: `network?` and `active?` are optional fields. */
  datatype Cluster = Cluster(name: string, endpoint: string, network: Option<Network>, active: Option<bool>)

  /** `defaultClusters`; `apiUrl` stands for web3.js's `clusterApiUrl`. */
  function DefaultClusters(apiUrl: string -> string): (r: seq<Cluster>)
    ensures |r| == 3
    ensures forall i, j :: 0 <= i < j < |r| ==> r[i].name != r[j].name
    ensures forall i :: 0 <= i < |r| ==> r[i].active == None
    ensures r[0].name == "devnet" && r[0].network == Some(Devnet)
    ensures r[1].name == "local" && r[1].network == None
  {
    [ Cluster("devnet", apiUrl("devnet"), Some(Devnet), None),
      Cluster("local", "http://localhost:8899", None, None),
      Cluster("testnet", apiUrl("testnet"), Some(Testnet), None) ]
  }

  /** `activeClustersAtom`: every stored item, with `active` set to whether
      its name is the selected cluster's name. */
  function ActiveClusters(stored: seq<Cluster>, selected: Cluster): (r: seq<Cluster>)
    ensures |r| == |stored|
    ensures forall i :: 0 <= i < |r| ==>
      && r[i].name == stored[i].name
      && r[i].endpoint == stored[i].endpoint
      && r[i].network == stored[i].network
      && r[i].active == Some(stored[i].name == selected.name)
  {
    if stored == [] then []
    else [stored[0].(active := Some(stored[0].name == selected.name))] + ActiveClusters(stored[1..], selected)
  }

  /** `Array.prototype.find` with the test `item.active`: the first index
      whose flag is set. */
  function FindActive(s: seq<Cluster>): (r: Option<nat>)
    ensures r.Some? ==> r.value < |s| && s[r.value].active == Some(true)
    ensures r.Some? ==> forall j :: 0 <= j < r.value ==> s[j].active != Some(true)
    ensures r.None? <==> forall j :: 0 <= j < |s| ==> s[j].active != Some(true)
  {
    if s == [] then None
    else if s[0].active == Some(true) then Some(0)
    else match FindActive(s[1..])
      case None => None
      case Some(k) => Some(k + 1)
  }

  /** `activeClusterAtom`: the first flagged item of the active list, or else
      its element 0; `undefined` (None) when the list is empty. */
  function ActiveCluster(stored: seq<Cluster>, selected: Cluster): (r: Option<Cluster>)
    ensures r.None? <==> stored == []
    ensures r.Some? ==> r.value in ActiveClusters(stored, selected)
  {
    var flagged := ActiveClusters(stored, selected);
    match FindActive(flagged)
    case Some(k) => Some(flagged[k])
    case None => if |flagged| > 0 then Some(flagged[0]) else None
  }

  /** When the selected name occurs, the active cluster is its first
      occurrence, flagged active. */
  lemma ActiveClusterSelected(stored: seq<Cluster>, selected: Cluster, k: nat)
    requires k < |stored| && stored[k].name == selected.name
    requires forall j :: 0 <= j < k ==> stored[j].name != selected.name
    ensures ActiveCluster(stored, selected) == Some(stored[k].(active := Some(true)))
  {
    var flagged := ActiveClusters(stored, selected);
    var f := FindActive(flagged);
    assert flagged[k].active == Some(true);
    assert f.Some?;
    assert f.value == k;
  }

  /** When the selected name does not occur, the active cluster is element 0,
      flagged inactive. */
  lemma ActiveClusterFallback(stored: seq<Cluster>, selected: Cluster)
    requires stored != [] && !HasName(stored, selected.name)
    ensures ActiveCluster(stored, selected) == Some(stored[0].(active := Some(false)))
  {
    var flagged := ActiveClusters(stored, selected);
    assert FindActive(flagged).None? by {
      forall j | 0 <= j < |flagged| ensures flagged[j].active != Some(true) {
        assert stored[j].name != selected.name;
      }
    }
  }

  /** The active cluster carries the selected name, flagged active, exactly
      when that name occurs in the stored list. */
  lemma ActiveClusterName(stored: seq<Cluster>, selected: Cluster)
    ensures HasName(stored, selected.name) <==>
      ActiveCluster(stored, selected).Some? && ActiveCluster(stored, selected).value.active == Some(true)
    ensures HasName(stored, selected.name) ==> ActiveCluster(stored, selected).value.name == selected.name
  {
    var flagged := ActiveClusters(stored, selected);
    var f := FindActive(flagged);
    if f.Some? {
      assert stored[f.value].name == selected.name;
    } else if stored != [] {
      assert flagged[0].active == Some(false);
      forall i | 0 <= i < |stored| ensures stored[i].name != selected.name {
        assert flagged[i].active != Some(true);
      }
    }
  }

  /** Whether some entry of `s` is called `name`. */
  predicate HasName(s: seq<Cluster>, name: string) {
    exists i :: 0 <= i < |s| && s[i].name == name
  }

  /** The filter of `deleteCluster`: the entries whose name differs from `name`. */
  function WithoutName(s: seq<Cluster>, name: string): (r: seq<Cluster>)
    ensures |r| <= |s|
    ensures forall x :: x in r <==> x in s && x.name != name
  {
    if s == [] then []
    else if s[0].name != name then [s[0]] + WithoutName(s[1..], name)
    else WithoutName(s[1..], name)
  }

  /** The filter keeps order: it distributes over concatenation. */
  lemma {:induction false} WithoutNameConcat(s: seq<Cluster>, t: seq<Cluster>, name: string)
    ensures WithoutName(s + t, name) == WithoutName(s, name) + WithoutName(t, name)
  {
    if s == [] {
      assert s + t == t;
    } else {
      assert (s + t)[1..] == s[1..] + t;
      WithoutNameConcat(s[1..], t, name);
    }
  }

  /** Filtering out an absent name changes nothing. */
  lemma {:induction false} WithoutAbsentName(s: seq<Cluster>, name: string)
    requires !HasName(s, name)
    ensures WithoutName(s, name) == s
  {
    if s != [] {
      assert !HasName(s[1..], name) by {
        forall i | 0 <= i < |s[1..]| ensures s[1..][i].name != name {
          assert s[1..][i] == s[i + 1];
        }
      }
      WithoutAbsentName(s[1..], name);
      assert [s[0]] + s[1..] == s;
    }
  }

  /** How often each cluster occurs once `name` is filtered out. */
  lemma {:induction false} WithoutNameCount(s: seq<Cluster>, name: string, x: Cluster)
    ensures multiset(WithoutName(s, name))[x] == if x.name == name then 0 else multiset(s)[x]
  {
    if s != [] {
      WithoutNameCount(s[1..], name, x);
      assert s == [s[0]] + s[1..];
      assert multiset(s) == multiset{s[0]} + multiset(s[1..]);
    }
  }

  /** Filtering two permutations of each other gives permutations of each other. */
  lemma WithoutNamePermutation(s: seq<Cluster>, t: seq<Cluster>, name: string)
    requires multiset(s) == multiset(t)
    ensures multiset(WithoutName(s, name)) == multiset(WithoutName(t, name))
  {
    forall x ensures multiset(WithoutName(s, name))[x] == multiset(WithoutName(t, name))[x] {
      WithoutNameCount(s, name, x);
      WithoutNameCount(t, name, x);
    }
  }

  /** The explorer's address, before the path. */
  const ExplorerBase: string := "https://explorer.solana.com/"

  /** The `switch` of `getClusterUrlParam`; `enc` stands for `encodeURIComponent`. */
  function ClusterSuffix(c: Cluster, enc: string -> string): (r: string)
    ensures r == "" <==> c.network == Some(Mainnet)
  {
    match c.network
    case Some(Devnet) => "devnet"
    case Some(Mainnet) => ""
    case Some(Testnet) => "testnet"
    case _ => "custom&customUrl=" + enc(c.endpoint)
  }

  /** `getClusterUrlParam`: the query string naming the explorer's network. */
  function ClusterUrlParam(c: Cluster, enc: string -> string): (r: string)
    ensures c.network == Some(Devnet) ==> r == "?cluster=devnet"
    ensures c.network == Some(Testnet) ==> r == "?cluster=testnet"
    ensures c.network == Some(Mainnet) ==> r == ""
    ensures c.network == None || c.network == Some(Custom) ==>
      r == "?cluster=custom&customUrl=" + enc(c.endpoint)
    ensures r == "" <==> c.network == Some(Mainnet)
  {
    var suffix := ClusterSuffix(c, enc);
    if |suffix| > 0 then "?cluster=" + suffix else ""
  }

  /** `getExplorerUrl(path)` given the active cluster. Reading `network` of
      an `undefined` cluster throws, which is None here. */
  function ExplorerUrl(active: Option<Cluster>, path: string, enc: string -> string): (r: Option<string>)
    ensures r.Some? <==> active.Some?
    ensures r.Some? ==> |ExplorerBase + path| <= |r.value| && r.value[..|ExplorerBase + path|] == ExplorerBase + path
    ensures active.Some? && active.value.network == Some(Mainnet) ==> r == Some(ExplorerBase + path)
    ensures active.Some? && active.value.network == Some(Devnet) ==> r == Some(ExplorerBase + path + "?cluster=devnet")
    ensures active.Some? && active.value.network == Some(Testnet) ==> r == Some(ExplorerBase + path + "?cluster=testnet")
    ensures active.Some? && (active.value.network == None || active.value.network == Some(Custom)) ==>
      r == Some(ExplorerBase + path + "?cluster=custom&customUrl=" + enc(active.value.endpoint))
    ensures active.Some? ==> r == Some(ExplorerBase + path + ClusterUrlParam(active.value, enc))
  {
    match active
    case None => None
    case Some(c) =>
      var param := ClusterUrlParam(c, enc);
      assert param == "" ==> ExplorerBase + path + param == ExplorerBase + path;
      assert ExplorerBase + path + ("?cluster=custom&customUrl=" + enc(c.endpoint))
        == ExplorerBase + path + "?cluster=custom&customUrl=" + enc(c.endpoint);
      Some(ExplorerBase + path + param)
  }
}
