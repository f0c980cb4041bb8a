/** The two renumberings of a cluster list (ocfi.py:58-83, 142-165): moving
    whole clusters to new ids, and rearranging the slots inside every
    cluster. Both rewrite each far-target so that it still points at the
    same slot content; both are undone by the inverse arrangement. */
module Renumbering {
  import opened Seqs
  import opened Types

  // ---------------------------------------------------------------------
  // Moving clusters: with_clusters_shuffled and update_refs

  /** `update_refs(new_order)`: each `(oldid, loc)` becomes
      `(new_order[oldid], loc)` (ocfi.py:144-146). */
  function RenumberClusters(far: seq<Entry>, newOrder: seq<int>): seq<Entry>
    requires forall e :: e in far ==> e.Ref? && 0 <= e.cid < |newOrder|
  {
    seq(|far|, i requires 0 <= i < |far| => Ref(newOrder[far[i].cid], far[i].slot))
  }

  /** The clusters after `with_clusters_shuffled` with `shuf_order = p`:
      position `k` holds old cluster `p[k]` with id `k`, and every
      far-target is renumbered by the inverse arrangement (ocfi.py:60-71). */
  function ClustersShuffled(cs: seq<ClusterVal>, p: seq<int>): seq<ClusterVal>
    requires RefsOk(cs) && IsPerm(p, |cs|)
  {
    var back := Inverse(p);
    seq(|cs|, k requires 0 <= k < |cs| =>
      cs[p[k]].(id := k, far := Some(RenumberClusters(cs[p[k]].far.value, back))))
  }

  /** After the cluster shuffle ids are positions again, each position holds
      the old cluster `p[k]` with its address, targets, nexus and capacity,
      and every far-target is valid and points at the same content as
      before (ocfi.py:58-72, 142-146). */
  lemma ClustersShuffledKeepsTargets(cs: seq<ClusterVal>, p: seq<int>)
    requires RefsOk(cs) && IsPerm(p, |cs|)
    ensures var r := ClustersShuffled(cs, p);
            && |r| == |cs|
            && IdsArePositions(r)
            && RefsOk(r)
            && forall k :: 0 <= k < |r| ==>
                 && r[k].addr == cs[p[k]].addr
                 && r[k].targets == cs[p[k]].targets
                 && r[k].nexus == cs[p[k]].nexus
                 && r[k].nexusCap == cs[p[k]].nexusCap
                 && |r[k].far.value| == |cs[p[k]].far.value|
                 && forall i :: 0 <= i < |r[k].far.value| ==>
                      Deref(r, r[k].far.value[i]) == Deref(cs, cs[p[k]].far.value[i])
  {
    var r := ClustersShuffled(cs, p);
    var back := Inverse(p);
    forall k, i | 0 <= k < |r| && 0 <= i < |r[k].far.value|
      ensures RefOk(r, r[k].far.value[i])
      ensures Deref(r, r[k].far.value[i]) == Deref(cs, cs[p[k]].far.value[i])
    {
      var e := cs[p[k]].far.value[i];
      assert e in cs[p[k]].far.value;
      assert p[back[e.cid]] == e.cid;
    }
    forall k | 0 <= k < |r|
      ensures forall e :: e in r[k].far.value ==> RefOk(r, e)
    {
      forall e | e in r[k].far.value ensures RefOk(r, e) {
        var i :| 0 <= i < |r[k].far.value| && r[k].far.value[i] == e;
      }
    }
  }

  /** Each cluster still protects the same target set after the cluster
      shuffle: what moved to position `k` covers what `p[k]` covered. */
  lemma ClustersShuffledKeepsCover(cs: seq<ClusterVal>, p: seq<int>)
    requires RefsOk(cs) && IsPerm(p, |cs|)
    ensures var r := ClustersShuffled(cs, p);
            forall k :: 0 <= k < |r| ==> r[k].far.Some? && Covered(r, k) == Covered(cs, p[k])
  {
    var r := ClustersShuffled(cs, p);
    ClustersShuffledKeepsTargets(cs, p);
    forall k | 0 <= k < |r| ensures Covered(r, k) == Covered(cs, p[k]) {
      SameCover(r, k, cs, p[k]);
    }
  }

  /** Shuffling by `p` and then by its inverse gives back a list whose ids
      are positions. */
  lemma ClustersShuffleRoundTrip(cs: seq<ClusterVal>, p: seq<int>)
    requires RefsOk(cs) && IsPerm(p, |cs|) && IdsArePositions(cs)
    ensures ClustersShuffleDefined(cs, p)
    ensures ClustersShuffled(ClustersShuffled(cs, p), Inverse(p)) == cs
  {
    var r := ClustersShuffled(cs, p);
    var back := Inverse(p);
    ClustersShuffledKeepsTargets(cs, p);
    InverseInverse(p);
    var r2 := ClustersShuffled(r, back);
    forall k | 0 <= k < |cs| ensures r2[k] == cs[k] {
      assert r2[k].far.value == RenumberClusters(r[back[k]].far.value, p);
      assert r[back[k]].far.value == RenumberClusters(cs[k].far.value, back);
      var far := cs[k].far.value;
      forall i | 0 <= i < |far| ensures r2[k].far.value[i] == far[i] {
        assert far[i] in far;
      }
      assert r2[k].far.value == far;
      assert r2[k].id == k == cs[k].id;
      assert r2[k].targets == cs[k].targets;
    }
  }

  predicate ClustersShuffleDefined(cs: seq<ClusterVal>, p: seq<int>)
    requires RefsOk(cs) && IsPerm(p, |cs|)
  {
    RefsOk(ClustersShuffled(cs, p)) && IsPerm(Inverse(p), |ClustersShuffled(cs, p)|)
  }

  // ---------------------------------------------------------------------
  // Rearranging slots: with_bbls_shuffled, shuffle and update_inner_refs

  /** `update_inner_refs(cluster_order)`: each `(id, oldloc)` becomes
      `(id, cluster_order[id][oldloc])` (ocfi.py:150-152). */
  function RenumberSlots(far: seq<Entry>, orders: seq<seq<int>>): seq<Entry>
    requires forall e :: e in far ==> e.Ref? && 0 <= e.cid < |orders| && 0 <= e.slot < |orders[e.cid]|
  {
    seq(|far|, i requires 0 <= i < |far| => Ref(far[i].cid, orders[far[i].cid][far[i].slot]))
  }

  /** One arrangement per cluster, each of that cluster's slots. */
  predicate SlotPerms(cs: seq<ClusterVal>, perms: seq<seq<int>>) {
    |perms| == |cs| && forall k :: 0 <= k < |cs| ==> IsPerm(perms[k], |cs[k].targets|)
  }

  /** The `reverse_order` each `shuffle` returns. */
  function Inverses(perms: seq<seq<int>>): (r: seq<seq<int>>)
    requires forall k :: 0 <= k < |perms| ==> IsPerm(perms[k], |perms[k]|)
    ensures |r| == |perms|
    ensures forall k :: 0 <= k < |perms| ==> r[k] == Inverse(perms[k])
  {
    seq(|perms|, k requires 0 <= k < |perms| => Inverse(perms[k]))
  }

  /** The clusters after `with_bbls_shuffled` with cluster `k` shuffled by
      `perms[k]`: slots rearranged, then every far-target redirected through
      the owner's reverse order (ocfi.py:76-82, 155-165). */
  function BlocksShuffled(cs: seq<ClusterVal>, perms: seq<seq<int>>): seq<ClusterVal>
    requires RefsOk(cs) && SlotPerms(cs, perms)
  {
    var orders := Inverses(perms);
    seq(|cs|, k requires 0 <= k < |cs| =>
      cs[k].(targets := Permute(cs[k].targets, perms[k]),
             far := Some(RenumberSlots(cs[k].far.value, orders))))
  }

  /** After the slot shuffle each cluster's slots are a rearrangement of its
      old slots, nothing else but the far-targets changes, and every
      far-target is valid and points at the same content as before
      (ocfi.py:74-83, 148-165). */
  lemma BlocksShuffledKeepsTargets(cs: seq<ClusterVal>, perms: seq<seq<int>>)
    requires RefsOk(cs) && SlotPerms(cs, perms)
    ensures var r := BlocksShuffled(cs, perms);
            && |r| == |cs|
            && RefsOk(r)
            && forall k :: 0 <= k < |r| ==>
                 && r[k].addr == cs[k].addr && r[k].id == cs[k].id
                 && r[k].nexus == cs[k].nexus && r[k].nexusCap == cs[k].nexusCap
                 && multiset(r[k].targets) == multiset(cs[k].targets)
                 && |r[k].far.value| == |cs[k].far.value|
                 && forall i :: 0 <= i < |r[k].far.value| ==>
                      Deref(r, r[k].far.value[i]) == Deref(cs, cs[k].far.value[i])
  {
    var r := BlocksShuffled(cs, perms);
    var orders := Inverses(perms);
    forall k | 0 <= k < |r| ensures multiset(r[k].targets) == multiset(cs[k].targets) {
      PermuteIsPermutation(cs[k].targets, perms[k]);
    }
    forall k, i | 0 <= k < |r| && 0 <= i < |r[k].far.value|
      ensures RefOk(r, r[k].far.value[i])
      ensures Deref(r, r[k].far.value[i]) == Deref(cs, cs[k].far.value[i])
    {
      var e := cs[k].far.value[i];
      assert e in cs[k].far.value;
      assert perms[e.cid][orders[e.cid][e.slot]] == e.slot;
    }
    forall k | 0 <= k < |r|
      ensures forall e :: e in r[k].far.value ==> RefOk(r, e)
    {
      forall e | e in r[k].far.value ensures RefOk(r, e) {
        var i :| 0 <= i < |r[k].far.value| && r[k].far.value[i] == e;
      }
    }
  }

  /** Each cluster still protects the same target set after the slot shuffle. */
  lemma BlocksShuffledKeepsCover(cs: seq<ClusterVal>, perms: seq<seq<int>>)
    requires RefsOk(cs) && SlotPerms(cs, perms)
    ensures var r := BlocksShuffled(cs, perms);
            forall k :: 0 <= k < |r| ==> r[k].far.Some? && Covered(r, k) == Covered(cs, k)
  {
    var r := BlocksShuffled(cs, perms);
    BlocksShuffledKeepsTargets(cs, perms);
    forall k | 0 <= k < |r| ensures Covered(r, k) == Covered(cs, k) {
      PermuteKeepsElems(cs[k].targets, perms[k]);
      SameCover(r, k, cs, k);
    }
  }

  /** Two clusters with the same slot contents whose far-targets point, one
      by one, at the same contents cover the same target set. */
  lemma SameCover(r: seq<ClusterVal>, k: int, cs: seq<ClusterVal>, k': int)
    requires RefsOk(r) && RefsOk(cs) && 0 <= k < |r| && 0 <= k' < |cs|
    requires Elems(r[k].targets) == Elems(cs[k'].targets)
    requires |r[k].far.value| == |cs[k'].far.value|
    requires forall i :: 0 <= i < |r[k].far.value| ==>
               Deref(r, r[k].far.value[i]) == Deref(cs, cs[k'].far.value[i])
    ensures Covered(r, k) == Covered(cs, k')
  {
    CoverWithin(r, k, cs, k');
    CoverWithin(cs, k', r, k);
  }

  /** One half of `SameCover`. */
  lemma CoverWithin(r: seq<ClusterVal>, k: int, cs: seq<ClusterVal>, k': int)
    requires RefsOk(r) && RefsOk(cs) && 0 <= k < |r| && 0 <= k' < |cs|
    requires Elems(r[k].targets) == Elems(cs[k'].targets)
    requires |r[k].far.value| == |cs[k'].far.value|
    requires forall i :: 0 <= i < |r[k].far.value| ==>
               Deref(r, r[k].far.value[i]) == Deref(cs, cs[k'].far.value[i])
    ensures Covered(r, k) <= Covered(cs, k')
  {
    var far, far' := cs[k'].far.value, r[k].far.value;
    forall s | s in Covered(r, k) ensures s in Covered(cs, k') {
      if s !in Elems(r[k].targets) {
        var e :| e in far' && RefOk(r, e) && Deref(r, e) == s;
        var i :| 0 <= i < |far'| && far'[i] == e;
        assert far[i] in far;
      }
    }
  }


  /** Shuffling slots by `perms` and then by the returned reverse orders
      gives the clusters back. */
  lemma BlocksShuffleRoundTrip(cs: seq<ClusterVal>, perms: seq<seq<int>>)
    requires RefsOk(cs) && SlotPerms(cs, perms)
    ensures var r := BlocksShuffled(cs, perms);
            && RefsOk(r) && SlotPerms(r, Inverses(perms))
            && BlocksShuffled(r, Inverses(perms)) == cs
  {
    var r := BlocksShuffled(cs, perms);
    var orders := Inverses(perms);
    BlocksShuffledKeepsTargets(cs, perms);
    assert SlotPerms(r, orders);
    var r2 := BlocksShuffled(r, orders);
    forall k | 0 <= k < |cs| ensures r2[k] == cs[k] {
      PermuteInverse(cs[k].targets, perms[k]);
      var far := cs[k].far.value;
      forall i | 0 <= i < |far| ensures r2[k].far.value[i] == far[i] {
        assert far[i] in far;
        InverseInverse(perms[far[i].cid]);
      }
      assert r2[k].far.value == far;
      assert r2[k].targets == cs[k].targets;
    }
  }
}
