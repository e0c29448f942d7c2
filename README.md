# Solana cluster registry, modelled in Dafny

This project models the cluster registry of a Solana web client
(`components/cluster/cluster-data-access.tsx`). The registry keeps two stored
values: the selected cluster and the list of known clusters (each a name, an
endpoint URL, an optional network and an optional `active` flag). It derives
from them:

- the list re-tagged with `active` flags;
- the active cluster;
- a view of the list sorted by name.

It offers three mutators (add, delete, select) and builds Solana Explorer
links for the active cluster.

Modules, one per concern of that file:

- `Wrappers` (`wrappers.dfy`): `Option`, for TypeScript optional fields and `undefined`.
- `NameOrder` (`name_order.dfy`): JavaScript's `<` on strings, as lexicographic order, with the lemmas that make it a total order.
- `Clusters` (`clusters.dfy`): the `Cluster` and `Network` datatypes, the default list, the flagged list, the active cluster, the delete filter, the URL parameter and explorer URL.
- `ClusterSort` (`sort.dfy`): the comparator of the sorted view and an in-place sort of an `array` with it.
- `ClusterRegistry` (`registry.dfy`): class `Registry`, whose fields `selected` and `clusters` are the two stored values, with the mutators as methods.

The code is modelled as written:

- Add does not reject a duplicate name. The new cluster is appended even if its name is already stored.
- Delete does not move the selection. When the selected cluster is deleted, the active cluster falls back to element 0 of the list.
- Select takes a whole cluster and cannot fail. If its name is not stored, the active cluster is element 0, flagged inactive.
- "Exactly one cluster is active" is not an invariant. With repeated names several entries are flagged, and with an unknown selection none is. `ActiveFlagsUnique` states when at most one, or exactly one, is flagged.
- The list that add and delete store is not the stored list with one change. It is the derived view: flagged and already sorted by name (lines 79, 85, 91, 98).
- An empty list leaves the active cluster `undefined`, and then building the explorer URL throws. Both cases are `None` here.

Calls into libraries become parameters:

- `clusterApiUrl` becomes `apiUrl: string -> string`;
- `encodeURIComponent` becomes `enc: string -> string`;
- the success or failure of `new Connection(endpoint)` becomes `probeOk: bool`.

## Model

| member | source | states |
|---|---|---|
| `Clusters.DefaultClusters` | components/cluster/cluster-data-access.tsx:25-37 | three clusters with distinct names and no `active` flag; the first is devnet on the Devnet network, the second `local` with no network |
| `Clusters.ActiveClusters` | components/cluster/cluster-data-access.tsx:48-55 | same length and order as the stored list; each item keeps name, endpoint and network; its `active` is true exactly when its name equals the selected cluster's name |
| `Clusters.FindActive` | components/cluster/cluster-data-access.tsx:60 | `find(item => item.active)`: returns the first index whose flag is set, or none exactly when no flag is set |
| `Clusters.ActiveCluster` | components/cluster/cluster-data-access.tsx:57-61 | `undefined` (None) exactly when the stored list is empty; otherwise one of the flagged items |
| `Clusters.ActiveClusterSelected` | components/cluster/cluster-data-access.tsx:57-61 | when the selected name occurs, the active cluster is its first occurrence, flagged active |
| `Clusters.ActiveClusterFallback` | components/cluster/cluster-data-access.tsx:57-61 | when the selected name does not occur in a non-empty list, the active cluster is element 0, flagged inactive |
| `Clusters.ActiveClusterName` | components/cluster/cluster-data-access.tsx:48-61 | the active cluster is flagged active exactly when the selected name is stored, and then it carries that name |
| `Clusters.WithoutName` | components/cluster/cluster-data-access.tsx:98 | the delete filter: an entry is kept exactly when it was there and its name differs from the given name |
| `Clusters.WithoutNameConcat` | components/cluster/cluster-data-access.tsx:98 | the filter keeps order: it distributes over concatenation |
| `Clusters.WithoutAbsentName` | components/cluster/cluster-data-access.tsx:98 | filtering out a name no entry has returns the list unchanged |
| `Clusters.WithoutNameCount` | components/cluster/cluster-data-access.tsx:98 | each cluster occurs in the result as often as in the input, or not at all when it has the deleted name |
| `Clusters.WithoutNamePermutation` | components/cluster/cluster-data-access.tsx:98 | filtering two permutations of one list gives permutations of each other |
| `Clusters.ClusterSuffix` | components/cluster/cluster-data-access.tsx:114-128 | the suffix chosen by the `switch` is empty exactly for Mainnet (the custom suffix is never empty) |
| `Clusters.ClusterUrlParam` | components/cluster/cluster-data-access.tsx:113-131 | Devnet gives `?cluster=devnet`, Testnet `?cluster=testnet`, Mainnet the empty string, Custom or no network `?cluster=custom&customUrl=` plus the encoded endpoint; empty exactly for Mainnet |
| `Clusters.ExplorerUrl` | components/cluster/cluster-data-access.tsx:103-104 | defined exactly when there is an active cluster, and then it is `https://explorer.solana.com/` + path + the cluster's URL parameter: exactly base + path for Mainnet, `?cluster=devnet` or `?cluster=testnet` appended for Devnet and Testnet, `?cluster=custom&customUrl=` + the encoded endpoint for Custom or no network |
| `NameOrder.Less` | components/cluster/cluster-data-access.tsx:85 | JavaScript's `<` on strings (the comparator's `>` with swapped operands): a string is never less than itself |
| `NameOrder.LessIrreflexive` | components/cluster/cluster-data-access.tsx:85 | no name is less than itself |
| `NameOrder.LessAsymmetric` | components/cluster/cluster-data-access.tsx:85 | two names are never each less than the other |
| `NameOrder.LessTransitive` | components/cluster/cluster-data-access.tsx:85 | the order on names is transitive |
| `NameOrder.LessTotal` | components/cluster/cluster-data-access.tsx:85 | any two different names are ordered one way or the other |
| `NameOrder.LessEqTransitive` | components/cluster/cluster-data-access.tsx:85 | "not greater" on names is transitive, which the sort relies on |
| `ClusterSort.CompareByName` | components/cluster/cluster-data-access.tsx:85 | the comparator never answers 0 |
| `ClusterSort.CompareByNameDistinct` | components/cluster/cluster-data-access.tsx:85 | on distinct names the comparator is antisymmetric and puts the smaller name first |
| `ClusterSort.CompareByNameEqual` | components/cluster/cluster-data-access.tsx:85 | on equal names it says "before" both ways round, so the order of such entries is not determined |
| `ClusterSort.SortByName` | components/cluster/cluster-data-access.tsx:85 | sorts an array in place: afterwards non-decreasing by name and a permutation of what it held |
| `ClusterSort.InsertLast` | components/cluster/cluster-data-access.tsx:85 | one step of the sort: a name-sorted prefix of length `i` becomes one of length `i + 1`, and the array stays a permutation of what it held |
| `ClusterSort.InsertedSorted` | components/cluster/cluster-data-access.tsx:85 | once the comparator stops moving the element left, the prefix is non-decreasing by name |
| `ClusterSort.NameSortedViewsAgree` | components/cluster/cluster-data-access.tsx:85 | any two name-sorted permutations of a list have the same sequence of names |
| `ClusterSort.WithoutNameSorted` | components/cluster/cluster-data-access.tsx:85-98 | deleting from the sorted view keeps it sorted |
| `ClusterSort.DefaultClustersSorted` | components/cluster/cluster-data-access.tsx:25-37 | the default list (devnet, local, testnet) is already in name order |
| `ClusterRegistry.Registry.constructor` | components/cluster/cluster-data-access.tsx:39-46 | initial state: the selection is the first default cluster and the list is the default list |
| `ClusterRegistry.Registry.Restore` | components/cluster/cluster-data-access.tsx:39-46 | state as read back from storage: exactly the given selection and list |
| `ClusterRegistry.Registry.SortedClusters` | components/cluster/cluster-data-access.tsx:79-85 | the exposed `clusters`: the flagged list sorted by name, as a permutation |
| `ClusterRegistry.Registry.AddCluster` | components/cluster/cluster-data-access.tsx:87-95 | probe succeeds: the stored list becomes the sorted flagged view with the new cluster appended, nothing removed even for a repeated name; probe fails: list unchanged; the selection is untouched in both cases |
| `ClusterRegistry.Registry.DeleteCluster` | components/cluster/cluster-data-access.tsx:97-99 | the stored list becomes the sorted flagged view without the entries of that name, in order. It is sorted and holds exactly the other flagged entries. An absent name keeps every entry. The selection is untouched, so deleting the selected cluster makes the active cluster fall back to element 0 |
| `ClusterRegistry.Registry.SetCluster` | components/cluster/cluster-data-access.tsx:101 | only the selection changes, to the given cluster; the stored list is unchanged |
| `ClusterRegistry.Registry.GetExplorerUrl` | components/cluster/cluster-data-access.tsx:103-104 | defined exactly when the stored list is non-empty; then it is the explorer base + path + the URL parameter of the active cluster, and exactly base + path when that cluster is Mainnet |
| `ClusterRegistry.GetExplorerUrlActiveOnly` | components/cluster/cluster-data-access.tsx:103-104 | two registries with the same active cluster give the same explorer URL |
| `ClusterRegistry.ActiveFlagsUnique` | components/cluster/cluster-data-access.tsx:48-55 | with distinct stored names at most one entry is flagged, and one is exactly when the selected name is stored |
| `ClusterRegistry.SelectLocalOnDefaults` | components/cluster/cluster-data-access.tsx:57-61 | on the default list, selecting a cluster named `local` makes `local` the active cluster |
| `ClusterRegistry.DefaultExplorerUrl` | components/cluster/cluster-data-access.tsx:113-131 | on the defaults, the link for `tx/ABC` is `https://explorer.solana.com/tx/ABC?cluster=devnet` |

## Left out

- `ClusterRegistry.Registry.SortedClusters`: gives "sorted by name and a permutation of the flagged list", not one exact order. The comparator never returns 0, so the engine's sort leaves the order of equal names open. The model sorts with an insertion sort, which is one of the allowed results. `NameSortedViewsAgree` shows every allowed result has the same sequence of names.
- `ClusterRegistry.Registry.AddCluster` and `ClusterRegistry.Registry.DeleteCluster`: state the stored prefix as one of the allowed sorted views, for the same reason.
- `NameOrder.Less`: compares Dafny characters (Unicode scalar values). JavaScript compares UTF-16 code units. The two orders differ only for names with characters outside the Basic Multilingual Plane.
- Persistence: `atomWithStorage` keeps both values in browser storage. That is I/O; the values are plain fields here, and `Restore` takes what storage would return. JSON serialisation is not modelled.
- A stored `network` string outside the `ClusterNetwork` enum cannot be represented as a `Network`. The source would send it to the `default` branch, like `Custom`.
- `new Connection(endpoint)` is a foreign constructor. Only whether it throws is modelled (`probeOk`).
- `encodeURIComponent` and `clusterApiUrl` are foreign functions. They stay uninterpreted parameters.
- The React context and provider plumbing is not modelled (lines 62-111). Each mutator derives the view from the current state, as the render before it would. Stale closures between renders are not captured.
- The `toast.error` notice after a failed probe is not modelled. It only displays the error.
- The `ClusterNetwork` string values (`"mainnet-beta"`, ...) are left out. The logic only compares enum members.
- components/account/account-data-access.tsx is not part of this model. Its operations are RPC, wallet and query-cache calls, with floating-point amounts and `Promise.all`.
- components/journal/journal-data-access.tsx is not part of this model. It passes everything through to the on-chain program SDK and the query cache.
- components/solana/solana-provider.tsx is not part of this model. It only wires React providers.
