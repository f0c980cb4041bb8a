# fake-ocfi in Dafny

A verified model of the cluster bookkeeping of `ocfi.py` and of the
matching pass `solve_for_addrs` of `solver.py`.

## What the scheme does

A scheme (`OCFI`) groups indirect branches into clusters.

- Branches are taken in ascending address order.
- Each branch gets a cluster whose id is its position in the list.
- A target address belongs to the first cluster that claims it: it becomes one of that cluster's own slots.
- A later claim on the same address becomes a far-target, a `(cluster id, slot)` reference back to the owner.
- `fill_nexus` fills each cluster's nexus, a capped list of references, first with far-targets and then with the cluster's own trailing slots.
- Two randomizations renumber the scheme: a per-cluster slot shuffle and a global cluster-id shuffle. Both rewrite every far-target so that it still points at the same address.
- The opaque view hides each cluster's branch address and far-targets.

`solve_for_addrs` is the attack. It is given a local scheme, whose clusters it can tie to branches, and an opaque target scheme.

- It resolves every nexus reference into the content it points at, together with the owner's target set.
- It finds the local clusters that no other local cluster equals.
- It copies a local branch address onto each target cluster that equals exactly one of them.
- A "big" local cluster has at least `nexus_cap` far-targets. For these it runs a tentative-match and skip discipline, and counts each outcome as a hit or a miss.

## How the model is organised

There are two layers. The value layer describes what the source computes; the object layer is the source's own step-by-step code, proved equal to the value layer.

- `Types`, `Seqs`: clusters as values (`ClusterVal`), slots, references, and permutations with their inverses.
- `Identity`: `__eq__`, `__hash__` and the opaque view.
- `Construction`: `do_clustering` as a function `Clustering`, with its invariant and the properties proved about it.
- `Portals`: `fill_nexus`, the sort it does, and its size bounds.
- `Renumbering`: both shuffles, as functions, with reference preservation and round trips.
- `Scheme`: the classes `Cluster` and `Ocfi`.
  - Their fields are updated in place by methods with loops.
  - Each method is proved to leave the cluster values that the value layer prescribes.
- `SolverSpec`: `solve_for_addrs` as the function `Solve`, with the properties of each phase.
- `Solver`: the imperative `solve_for_addrs` over `Cluster` objects. It is proved to return `Solve` of the initial values and to leave the clusters as `Solve` says.

### Inputs and representation

- The CFG is a parameter `Cfg`. It holds each branch's target addresses, in the iteration order of their frozenset, and the bytes of each basic block.
- `random.shuffle` becomes a permutation argument: `shuf_order`, or one `new_order` per cluster.
- A dictionary the code fills is a `map`.
  - `big_nexus_clusters` is keyed by positions in insertion order, which are ascending.
  - `unduplicated_real_clusters` is a map from hash keys, as `__hash__` computes them, to a flag.
- A failed Python `assert` is a `false` result (`UpdateRefs`, `ResolveTargetAll`, …) or an `Outcome.Failed(why)`.

### Where the documented design and the code differ (the model follows the code)

- **`closeness_key` returns `None`** (ocfi.py:120-128). The inner function is never returned, so `sorted` orders far-targets by plain tuple order `(cluster id, slot)`. `fartargs[-cap:]` then keeps the highest cluster ids, not the farthest ones.
  - `Portals.Closeness` is the key the code computes.
  - `Portals.FillKeepsNearerTarget` exhibits a cluster for which the fill keeps the nearer far-target.
- **The big-cluster nexus.** `fill_nexus` always caps at `nexus_cap`. The "all far-targets plus a sentinel" nexus of a big cluster is built only by the solver, for local clusters only (solver.py:40-48).
  - It is the resolved far-targets, then `(-1, len(targets))`, then `-1`.
  - Its length is therefore the far-target count plus two.
- **`OCFI.__copy__` does not copy.** It builds a fresh scheme from the CFG (ocfi.py:54-56).
  - `with_clusters_shuffled` and `with_bbls_shuffled` therefore start from a fresh clustering, whatever was done to the receiver.
  - `generate_shuffled_transparent` loses the slot shuffle: `Scheme.GenerateShuffledTransparent` proves its result depends on the cluster order only.
- **Ambiguous big candidates.** A candidate that fits two big clusters still appends its id to both claim lists. So it blocks every big cluster it fits. Each of those that is unduplicated counts as a miss; a duplicated one is passed over without counting (solver.py:129-130).

## Model

| member | source | states |
|---|---|---|
| Identity.Eq | ocfi.py:179-183 | `__eq__`: the same set of nexus entries, the same set of slot contents, and the same lengths of both lists; address, id and far-targets play no part |
| Identity.HashKey | ocfi.py:176-177 | the tuple `__hash__` hashes: the two frozensets and the two lengths |
| Identity.HashMatchesEq | ocfi.py:176-183 | the tuple `__hash__` hashes agrees with `__eq__`: two clusters give equal tuples exactly when they are `==`. This is about the tuple, not Python's `hash()` value, which may collide; dictionary and set lookups still behave as `==` |
| Identity.EqIgnoresOrder | ocfi.py:179-183 | `==` ignores the order of nexus entries and of slots: any rearrangement of both is `==` to the original |
| Identity.Hidden | ocfi.py:201-203 | a hidden cluster has address -1 and no far-target list, keeps id and cap, and is `==` to the original |
| Identity.OpaqueView | ocfi.py:190-204 | the opaque view has as many clusters as the scheme; each has address -1 and no far-targets, and the same id, nexus and slots |
| Seqs.Inverse | ocfi.py:62-64 | `reverse_order` is a permutation with `reverse_order[p[i]] == i` and `p[reverse_order[k]] == k` |
| Seqs.PermuteIsPermutation | ocfi.py:161-164 | the rearranged slot list holds the same elements with the same multiplicities |
| Seqs.SortedKeys | ocfi.py:30 | `sorted(tset.keys())` has one entry per branch address and exactly the branch addresses |
| Seqs.SortedKeysAscending | ocfi.py:30 | `sorted(tset.keys())` is strictly ascending |
| Construction.Claim | ocfi.py:35-39 | one round of the inner loop: a target in `used_targets` appends its recorded reference to the far-targets; any other is appended as a slot and recorded as `(id, len(targets))` |
| Construction.ClaimAll | ocfi.py:34-39 | the inner loop: `Claim` over a branch's targets in iteration order |
| Construction.AddBranch | ocfi.py:31-40 | one round of the outer loop: a new cluster with id `len(clusters)` and the default cap claims the branch's targets and is appended |
| Construction.BuildFrom | ocfi.py:28-40 | the outer loop over the branch addresses in the given order, from no clusters and an empty `used_targets` |
| Construction.Clustering | ocfi.py:17-41 | `do_clustering`: the outer loop over `sorted(tset.keys())` |
| Construction.StartBranch | ocfi.py:31-33 | starting a new cluster for the next branch, with id `len(clusters)`, keeps the construction invariant |
| Construction.ClaimOwned | ocfi.py:35-36 | a target already in `used_targets` becomes a far-target to its owner, and the invariant is kept |
| Construction.ClaimFree | ocfi.py:37-39 | a target not yet claimed becomes a new own slot recorded in `used_targets`, and the invariant is kept |
| Construction.ClaimAllGood | ocfi.py:34-39 | the inner loop over a branch's distinct targets keeps the invariant, with all of them consumed |
| Construction.BuildFromGood | ocfi.py:28-40 | after any prefix of the branches the invariant holds: ids are positions, `used_targets` maps exactly the own slots, far-targets point back, and each cluster covers what it consumed |
| Construction.Built | ocfi.py:28-41 | the whole construction ends in the invariant with every cluster having consumed its branch's full target list |
| Construction.ClusteringIds | ocfi.py:28-33 | one cluster per branch, cluster `i` has id `i`, an empty nexus, a far-target list and the default cap |
| Construction.ClusteringAscending | ocfi.py:30-33 | the clusters' branch addresses are exactly the branches, strictly ascending with position |
| Construction.ClusteringBackRefs | ocfi.py:35-39 | every far-target is a valid `(cid, slot)` reference into a cluster built earlier (`cid` below its own id) |
| Construction.ClusteringOwnership | ocfi.py:34-39 | no address is owned twice, and every own slot holds an address of its own branch's target set |
| Construction.ClusteringOwnsEveryTarget | ocfi.py:34-39 | every address a branch targets is an own slot of some cluster |
| Construction.ClusteringCovers | ocfi.py:30-39 | each cluster's own slots together with what its far-targets point at are exactly its branch's target set |
| Portals.MaybeAdd | ocfi.py:108-111 | `maybe_add_to_nexus`: append unless the nexus length equals the cap |
| Portals.SortRefs | ocfi.py:132 | `sorted(fartargets)` with no key, built by insertion; same length, still references |
| Portals.TakeLast | ocfi.py:133 | `fartargs[-cap:]`: the last `cap` entries, and all of them when the cap is 0 |
| Portals.FarFill | ocfi.py:132-134 | the nexus after offering the last `cap` sorted far-targets in order |
| Portals.Filled | ocfi.py:130-140 | the nexus `fill_nexus` leaves: `FarFill`, then, when there are fewer far-targets than the cap, the trailing own slots offered from `len(targets) - (cap - F)` on, negative positions skipped |
| Portals.AllFilled | ocfi.py:12-15 | `make_portals`: every cluster's nexus becomes `Filled`, nothing else changes |
| Portals.InsertSorted | ocfi.py:132 | inserting into a list sorted in tuple order keeps it sorted and adds exactly the new entry |
| Portals.SortRefsSorts | ocfi.py:132 | `sorted(fartargets)` is in ascending tuple order and is a rearrangement of the far-targets |
| Portals.SortedUnique | ocfi.py:132 | two sorted rearrangements of the same entries are equal, so the model's sort is the one `sorted` produces |
| Portals.AddEachFits | ocfi.py:108-111 | offering entries one by one to a nexus at or below its cap appends the longest prefix of them that fits |
| Portals.SelfRefs | ocfi.py:137-140 | `(id, closeid)` for `closeid` in the range, negative ones skipped: its length and each entry |
| Portals.FarFillSize | ocfi.py:133-134 | from an empty nexus the far-target part has `min(cap, len(fartargets))` entries |
| Portals.FarFillFromEmpty | ocfi.py:132-134 | from an empty nexus the far-target part is the last `min(cap, F)` far-targets in tuple order |
| Portals.SelfTopUp | ocfi.py:135-140 | topping up a nexus of `F < cap` entries appends references to the cluster's last `min(cap - F, T)` own slots, ascending and in range |
| Portals.FillFromEmpty | ocfi.py:130-140 | from an empty nexus, `len(nexus) == min(cap, F + T)`; the far-target part comes first, then the cluster's own last slots, all in range |
| Portals.FillFromEmptyFull | ocfi.py:130-135 | with at least `cap` far-targets the nexus is exactly the far-target part |
| Portals.FillBounded | ocfi.py:108-140 | `fill_nexus` only appends, and never grows a nexus past its cap |
| Portals.Closeness | ocfi.py:121-128 | the key `closeness` computes: its id distance is non-negative and zero exactly for self-references |
| Portals.FillKeepsNearerTarget | ocfi.py:120-133 | a cluster with id 3, room for one entry and far-targets into clusters 0 and 2 keeps the one into cluster 2, whose key is the smaller |
| Renumbering.RenumberClusters | ocfi.py:142-146 | `update_refs`: each far-target `(oldid, loc)` becomes `(new_order[oldid], loc)` |
| Renumbering.ClustersShuffled | ocfi.py:58-72 | `with_clusters_shuffled`: position `k` holds old cluster `p[k]` with id `k`, and far-targets go through the inverse arrangement |
| Renumbering.RenumberSlots | ocfi.py:148-152 | `update_inner_refs`: each far-target `(id, oldloc)` becomes `(id, cluster_order[id][oldloc])` |
| Renumbering.BlocksShuffled | ocfi.py:74-83 | `with_bbls_shuffled`: each cluster's slots rearranged by its draw, then every far-target redirected through the owner's reverse order |
| Renumbering.ClustersShuffledKeepsTargets | ocfi.py:58-72 | after the cluster shuffle, position `k` holds old cluster `p[k]` with id `k`; address, slots, nexus and cap are unchanged; references stay valid, and each far-target points at the same content as before |
| Renumbering.ClustersShuffledKeepsCover | ocfi.py:58-72 | after the cluster shuffle each cluster covers the target set its old self covered |
| Renumbering.ClustersShuffleRoundTrip | ocfi.py:58-72 | shuffling clusters by `p` and then by its inverse gives the original list back |
| Renumbering.BlocksShuffledKeepsTargets | ocfi.py:74-83 | after the slot shuffle every cluster keeps address, id, nexus and cap; its slots are a rearrangement of the old ones; references stay valid and point at the same content |
| Renumbering.BlocksShuffledKeepsCover | ocfi.py:74-83 | after the slot shuffle each cluster covers the same target set |
| Renumbering.BlocksShuffleRoundTrip | ocfi.py:74-83 | shuffling slots by `perms` and then by the returned reverse orders gives the clusters back |
| Scheme.MoveSlot | ocfi.py:47-52 | a slot holding an address the CFG has a block for becomes that block's bytes; any other stays |
| Scheme.Moved | ocfi.py:43-52 | `do_move_targets`: `MoveSlot` on every slot of every cluster |
| Scheme.ResolvedTargets | ocfi.py:5-9 | `tset`: each branch's target list, with branches without targets left out |
| Scheme.MoveTargets | ocfi.py:46-52 | every slot whose address has a block now holds that block's bytes; nothing else of the cluster changes |
| Scheme.MovedKeepsRefs | ocfi.py:43-52 | moving changes only slot contents; references stay valid and point at the moved content of their old slot |
| Scheme.MovedIdempotent | ocfi.py:43-52 | moving twice is the same as moving once |
| Scheme.ReverseOrder | ocfi.py:62-64 | the loop that fills `reverse_order` computes the inverse permutation |
| Scheme.Rearranged | ocfi.py:161-164 | the loop that builds `newtargets` computes `targets` rearranged by `new_order` |
| Scheme.Cluster.constructor | ocfi.py:93-99 | a new cluster has the given address, id and cap, and empty nexus, far-target list and slots |
| Scheme.Cluster.Copy | ocfi.py:101-106 | a fresh cluster with the same field values |
| Scheme.Cluster.MaybeAddToNexus | ocfi.py:108-111 | appends below the cap; a full nexus is unchanged |
| Scheme.Cluster.AddTarget | ocfi.py:113-115 | appends the address as a slot and returns the reference `(id, len(targets) - 1)` to it |
| Scheme.Cluster.AddFartarget | ocfi.py:117-118 | appends the reference to the far-targets |
| Scheme.Cluster.FillNexus | ocfi.py:130-140 | the nexus becomes `Filled` of the old cluster; nothing else changes |
| Scheme.Cluster.OfferAll | ocfi.py:133-134 | the nexus is offered each entry in order |
| Scheme.Cluster.OfferClose | ocfi.py:135-140 | the nexus is offered each own slot from `lo` on, skipping negative positions |
| Scheme.Cluster.UpdateRefs | ocfi.py:142-146 | fails exactly when the nexus is not empty, changing nothing; otherwise each far-target's cluster id is mapped through `new_order` and nothing else changes |
| Scheme.Cluster.UpdateInnerRefs | ocfi.py:148-152 | fails exactly when the nexus is not empty, changing nothing; otherwise each far-target's slot is mapped through its owner's order and nothing else changes |
| Scheme.Cluster.Shuffle | ocfi.py:154-165 | slots are rearranged by `new_order` (a multiset-preserving rearrangement); the returned reverse order is its inverse, and `new[r[i]] == old[i]` |
| Scheme.Ocfi.constructor | ocfi.py:5-10 | a valid scheme whose clusters are the clustering of the CFG's non-empty target sets |
| Scheme.Ocfi.DoClustering | ocfi.py:17-41 | the cluster list holds fresh, distinct objects whose values are `Clustering(tset)` |
| Scheme.BuildClusters | ocfi.py:28-41 | the two loops build fresh, distinct cluster objects whose values are `Clustering(tset)` |
| Scheme.AddBranchCluster | ocfi.py:31-40 | one round of the outer loop appends a fresh cluster and yields the clusters and `used_targets` of `AddBranch` |
| Scheme.ClaimTargets | ocfi.py:34-39 | the inner loop leaves the cluster and `used_targets` that `ClaimAll` gives |
| Scheme.Ocfi.MakePortals | ocfi.py:12-15 | every cluster's nexus is filled: the values become `AllFilled` of the old ones |
| Scheme.FillEach | ocfi.py:14-15 | the loop over the clusters leaves each one filled |
| Scheme.FillOne | ocfi.py:14-15 | one iteration fills the cluster at position `k` |
| Scheme.Ocfi.DoMoveTargets | ocfi.py:43-52 | the cluster values become `Moved` of the old ones under the CFG's block map |
| Scheme.Ocfi.Copy | ocfi.py:54-56 | a fresh valid scheme for the same CFG whose clusters are a fresh clustering, whatever the receiver holds |
| Scheme.Ocfi.WithClustersShuffled | ocfi.py:58-72 | a fresh scheme whose clusters are `ClustersShuffled(Clustering(tset), p)`; the receiver is unchanged |
| Scheme.RenumberIds | ocfi.py:62-71 | the renumbering loop and the sort by id put old cluster `p[k]` at position `k`, renumbered |
| Scheme.RenumberEach | ocfi.py:66-70 | cluster `p[i]` takes id `i` and has its far-targets renumbered through `reverse_order` |
| Scheme.RenumberOne | ocfi.py:67-70 | one iteration: new id, renumbered far-targets |
| Scheme.Ocfi.WithBblsShuffled | ocfi.py:74-83 | a fresh scheme whose clusters are `BlocksShuffled(Clustering(tset), perms)`; the receiver is unchanged |
| Scheme.ShuffleSlots | ocfi.py:76-82 | both loops together leave `BlocksShuffled` of the old values |
| Scheme.ShuffleEach | ocfi.py:77-79 | every cluster's slots are rearranged by its permutation, and `cluster_order` holds the reverse orders in cluster order |
| Scheme.ShuffleOne | ocfi.py:78-79 | one iteration shuffles the cluster at position `k` and yields its reverse order |
| Scheme.RedirectEach | ocfi.py:81-82 | every cluster's far-targets are redirected through `cluster_order` |
| Scheme.GenerateShuffledTransparent | ocfi.py:186-187 | the result is the cluster shuffle of a fresh clustering: the slot shuffle is lost |
| Scheme.GenerateOpaque | ocfi.py:190-204 | a fresh scheme whose clusters are fresh objects holding the opaque view of the given scheme's clusters |
| Scheme.CopyClusters | ocfi.py:193-196 | fresh, distinct copies with the same values |
| Scheme.HideAll | ocfi.py:201-203 | every cluster is hidden: the values become `OpaqueView` of the old ones |
| SolverSpec.Candidate | solver.py:87 | a target cluster `==` to no local cluster whose nexus has 12 entries |
| SolverSpec.Fits | solver.py:93-98 | the big cluster has the same target set and holds every nexus entry of the candidate |
| SolverSpec.Claims | solver.py:87-106 | `big_nexus_clusters[k]` after the loop: the ids of the candidates that fit `L[k]`, in target order |
| SolverSpec.Skipped | solver.py:99-111 | `big_skip` after the loop: the candidates that fit a second big cluster |
| SolverSpec.DirectAddr | solver.py:114-122 | a non-candidate `==` to exactly one local cluster takes that cluster's address; any other keeps its own |
| SolverSpec.CommitStep | solver.py:129-137 | one round of the last loop: pass over a duplicated big cluster; stop on an empty claim list; a miss for several claims or a skipped one; otherwise a hit that writes the address |
| SolverSpec.Commit | solver.py:125-139 | the last loop over the big clusters in key order, from the direct-match addresses and zero counts |
| SolverSpec.Match | solver.py:72-139 | everything after resolution: stop at line 109 when `Stuck`, at line 131 when `Commit` stops, else the targets with the committed addresses and the two counts |
| SolverSpec.Solve | solver.py:29-139 | `solve_for_addrs`: stop at line 60 when a target cluster has far-targets, else `Match` of the resolved schemes |
| SolverSpec.Resolve | solver.py:46 | a resolved reference holds the content it pointed at, inside the owner's full target set |
| SolverSpec.ResolveEntry | solver.py:53-57 | a nexus entry becomes the sentinel `(-1, len(targets))` exactly when it references the cluster itself, and otherwise the resolved content |
| SolverSpec.ResolvedLocal | solver.py:39-57 | a big cluster's far-targets become the resolved ones plus `(-1, len(targets))` and its nexus those plus `-1`, two longer than the far-targets; any other cluster has its nexus resolved entry by entry; nothing else changes |
| SolverSpec.CountEq | solver.py:72-79 | the number of local clusters `==` to `c` is positive exactly when `c in clusters` |
| SolverSpec.CountKeyIsCountEq | solver.py:72-79 | counting local clusters by hash key counts exactly the `==` ones |
| SolverSpec.FirstEq | solver.py:119 | `clusters.index(c)` is the first position holding a cluster `==` to `c` |
| SolverSpec.UniqueEq | solver.py:114-121 | a cluster is unduplicated exactly when some local cluster equals it and none besides the first one; so the asserts at lines 118 and 121 hold |
| SolverSpec.BigIds | solver.py:38-43 | the keys of `big_nexus_clusters` are exactly the positions of the big local clusters, ascending |
| SolverSpec.FitCount | solver.py:91-106 | the number of big clusters a candidate fits is positive exactly when it fits one |
| SolverSpec.ClaimsExactly | solver.py:87-106 | after the loop, a big cluster's claim list holds exactly the ids of the candidates that fit it |
| SolverSpec.ClaimsAscending | solver.py:83-106 | each claim list is strictly ascending: every candidate appears once, in target order |
| SolverSpec.SkippedExactly | solver.py:87-111 | `big_skip` holds exactly the candidates that fit two or more big clusters |
| SolverSpec.CommitCounts | solver.py:125-138 | when the last loop completes, `hitcount` is the number of hits (unduplicated big clusters with exactly one claim, outside `big_skip`), `missedcount` the number of the other unduplicated big clusters, and the two add up to all unduplicated big clusters |
| SolverSpec.CommitWrites | solver.py:128-137 | the last loop changes a target's address only to the address of an unduplicated big cluster whose claim list is exactly that target, with the target not in `big_skip` |
| SolverSpec.CommitDelivers | solver.py:128-137 | conversely to `CommitWrites`: when no candidate outside `big_skip` is claimed twice, every hit leaves its big cluster's address on the candidate that alone claims it |
| SolverSpec.SkippedMeansSoleClaims | solver.py:99-111 | with `big_skip` as the second loop leaves it, no candidate outside it is in two claim lists |
| SolverSpec.MatchCounts | solver.py:125-139 | a solved pass counts exactly the hits as `hitcount` and the other unduplicated big clusters as `missedcount` |
| SolverSpec.MatchDelivers | solver.py:128-137 | in a solved pass every hit gives its one claiming candidate the big cluster's address, overriding the direct match |
| SolverSpec.MatchAddrs | solver.py:82-138 | a solved target differs from the resolved one only in its address. That address is the direct match's, or that of the one big cluster it alone claims; the target is then a candidate fitting exactly one big cluster |
| SolverSpec.SolveOutcome | solver.py:29-139 | the pass fails at line 60 exactly when the target scheme has far-targets; when it solves, each target cluster keeps everything but nexus and address, and hits plus misses is the number of unduplicated big clusters |
| Solver.ResolveNexusOf | solver.py:50-57 | the loop over a nexus resolves every entry in place and changes no slot of any cluster |
| Solver.ResolveBig | solver.py:43-48 | a big cluster's far-targets are resolved and closed with `(-1, len(targets))`, and its nexus becomes them followed by `-1` |
| Solver.ResolveLocalOne | solver.py:39-57 | one iteration reports whether the cluster is big and leaves it as `ResolvedLocal` says |
| Solver.ResolveLocalAll | solver.py:38-57 | the local clusters become their `LocalView`, `big_nexus_clusters` has the big positions as keys in order, each with an empty list |
| Solver.ResolveTargetOne | solver.py:59-68 | one iteration fails exactly when the cluster has far-targets, and otherwise resolves its nexus |
| Solver.ResolveTargetAll | solver.py:59-68 | fails exactly when some target cluster has far-targets; otherwise the target clusters become their `TargetView` |
| Solver.UndupKeys | solver.py:72-79 | `unduplicated_real_clusters` holds exactly the hash keys of exactly one local cluster |
| Solver.UndupKeysMeanUnduplicated | solver.py:114 | `clus in unduplicated_real_clusters` holds exactly when no other local cluster equals `clus` |
| Solver.Contains | solver.py:87 | `clus in ocfilocal.clusters` is `==`-membership |
| Solver.IndexEq | solver.py:119 | `index` returns the first position `==` to the cluster |
| Solver.NexusWithin | solver.py:95-98 | the `for … else` reaches its `else` exactly when every nexus entry of the candidate is in the big cluster's nexus |
| Solver.TryBig | solver.py:89-106 | `matched` iff the candidate fits some big cluster, `failed` iff it fits two; its id is appended to the claim list of exactly the big clusters it fits |
| Solver.DirectOne | solver.py:114-122 | a non-candidate target takes the address of the one local cluster equal to it when it is unduplicated, and is otherwise unchanged |
| Solver.MatchOne | solver.py:87-122 | one iteration fails exactly for a candidate fitting no big cluster, and otherwise advances claim lists, skip set and addresses |
| Solver.MatchTargets | solver.py:82-122 | the loop fails exactly when some candidate fits no big cluster; otherwise it leaves the claim lists and skip set of the specification and the direct-match addresses |
| Solver.SetAddr | solver.py:137 | writes one target cluster's address and nothing else |
| Solver.CommitOne | solver.py:128-137 | one iteration of the last loop does what `CommitStep` says: stop at `assert l`, skip, count a miss, or commit and count a hit |
| Solver.CommitBig | solver.py:125-139 | the last loop stops exactly when `Commit` does, and otherwise leaves its hit and miss counts and addresses |
| Solver.MatchAll | solver.py:72-139 | everything after resolution yields `Match` of the resolved schemes, and a solved target scheme holds its result |
| Solver.SolveForAddrs | solver.py:29-139 | the outcome is `Solve` of the two schemes' initial values; when it solves, the local scheme is its `LocalView` and the target scheme holds the result |

## Left out

- The angr front end: `get_target_addrs`, `get_resolved_indirect_branches` and `get_processed_indirect_branches` (ocfi.py:207-248). The model's input is the CFG as a `Cfg` value. `ResolvedTargets` drops branches without targets, as ocfi.py:223 does.
- main.py, the unused `get_unresolved_*` helpers and the `__main__` driver of solver.py. These cover pickling, printing, networkx statistics and the ground-truth assertion on real binaries.
- `print_stats`, every `__str__` and the `print` calls in `solve_for_addrs`. These are output only. The hit and miss counts are part of `Outcome` instead of being printed.
- `random.shuffle`: each draw is a permutation argument.
- Python's concrete `hash` values: only the tuple that `__hash__` hashes is modelled (`HashKey`).
- Frozenset iteration order is not modelled: each branch's targets are a duplicate-free sequence given as input.
- Python's failure modes other than `assert`: a bad index (`IndexError`) or a `None` far-target list (`TypeError`).
  - Operations that the source would crash on require valid references instead.
  - `SolverInput` in `SolveForAddrs` and the reference preconditions of `UpdateRefs`/`UpdateInnerRefs` are examples.
- Solver.SolveForAddrs: requires cluster ids to equal list positions in both schemes. The source indexes clusters by id (solver.py:46, 92, 137), and every scheme `OCFI` builds or shuffles has this property.
- Solver.SolveForAddrs: requires the two schemes to share no cluster object.
- Solver.SolveForAddrs: after an assertion fails, the state of the clusters is not specified. Python stops midway with some clusters already rewritten.
- Scheme.Cluster.UpdateRefs: a failed `assert not self.nexus` returns `false` and leaves the cluster unchanged, where Python raises.
- Scheme.Cluster.UpdateInnerRefs: same as `UpdateRefs`.
- List aliasing is not modelled: slot and reference lists are Dafny sequences, which are values.
  - `OCFICluster.__copy__` copies its lists, so no aliasing between copies is lost.
  - Aliasing between cluster objects is modelled: clusters are objects, and `NoDup`/`Apart` state when lists of them are distinct.
