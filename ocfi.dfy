/** The mutable objects of the scheme, `OCFICluster` and `OCFI` (ocfi.py),
    as classes whose methods are proved to compute the functions of the
    `Construction`, `Portals`, `Renumbering` and `Identity` modules. */
module Scheme {
  import opened Seqs
  import opened Types
  import opened Construction
  import opened Portals
  import opened Renumbering
  import opened Identity

  // ---------------------------------------------------------------------
  // Moving block bytes into place

  /** What `do_move_targets` does to one slot: an address the CFG knows
      becomes that block's bytes; anything else stays (ocfi.py:47-52). */
  function MoveSlot(blocks: map<int, seq<bv8>>, s: Slot): Slot {
    if s.At? && s.addr in blocks then Code(blocks[s.addr]) else s
  }

  function MovedTargets(blocks: map<int, seq<bv8>>, ts: seq<Slot>): seq<Slot> {
    seq(|ts|, i requires 0 <= i < |ts| => MoveSlot(blocks, ts[i]))
  }

  /** The inner loop of `do_move_targets`: every slot of `c` holding an
      address the CFG has a block for now holds that block's bytes. */
  method MoveTargets(c: Cluster, blocks: map<int, seq<bv8>>, ghost v: ClusterVal)
    requires c.Val() == v
    modifies c
    ensures c.Val() == v.(targets := MovedTargets(blocks, v.targets))
  {
    for i := 0 to |c.targets|
      invariant c.Val() == v.(targets := c.targets)
      invariant |c.targets| == |v.targets|
      invariant forall m :: 0 <= m < |v.targets| ==>
                  c.targets[m] == if m < i then MoveSlot(blocks, v.targets[m]) else v.targets[m]
    {
      var s := c.targets[i];
      if s.At? && s.addr in blocks {
        c.targets := c.targets[i := Code(blocks[s.addr])];
      }
    }
  }

  /** `do_move_targets` on a whole cluster list. */
  function Moved(cs: seq<ClusterVal>, blocks: map<int, seq<bv8>>): seq<ClusterVal> {
    seq(|cs|, k requires 0 <= k < |cs| => cs[k].(targets := MovedTargets(blocks, cs[k].targets)))
  }

  /** Moving changes nothing but slot contents, keeps every reference valid,
      and a far-target then points at the moved content of its old slot. */
  lemma MovedKeepsRefs(cs: seq<ClusterVal>, blocks: map<int, seq<bv8>>)
    requires RefsOk(cs)
    ensures var r := Moved(cs, blocks);
            && |r| == |cs| && RefsOk(r)
            && forall k :: 0 <= k < |r| ==>
                 && r[k] == cs[k].(targets := r[k].targets)
                 && |r[k].targets| == |cs[k].targets|
                 && forall e :: e in r[k].far.value ==> Deref(r, e) == MoveSlot(blocks, Deref(cs, e))
  {
  }

  /** Moving twice is moving once: bytes stay bytes, and an address the CFG
      does not know stays an address. */
  lemma MovedIdempotent(cs: seq<ClusterVal>, blocks: map<int, seq<bv8>>)
    ensures Moved(Moved(cs, blocks), blocks) == Moved(cs, blocks)
  {
    var r := Moved(cs, blocks);
    forall k | 0 <= k < |cs| ensures Moved(r, blocks)[k] == r[k] {
      assert MovedTargets(blocks, r[k].targets) == r[k].targets;
    }
  }

  // ---------------------------------------------------------------------
  // OCFICluster

  /** `reverse_order`: position `p[i]` receives `i` (ocfi.py:62-64, 157-159). */
  method ReverseOrder(p: seq<int>) returns (r: seq<int>)
    requires IsPerm(p, |p|)
    ensures r == Inverse(p)
  {
    var rev := new int[|p|](_ => 0);
    var newid := 0;
    while newid < |p|
      invariant 0 <= newid <= |p|
      invariant forall j :: 0 <= j < newid ==> rev[p[j]] == j
    {
      rev[p[newid]] := newid;
      newid := newid + 1;
    }
    r := rev[..];
    forall k | 0 <= k < |p| ensures r[k] == Inverse(p)[k] {
      assert p[Inverse(p)[k]] == k;
    }
  }

  /** `[targets[oldid] for oldid in new_order]`, built by appending
      (ocfi.py:161-163). */
  method Rearranged(ts: seq<Slot>, order: seq<int>) returns (r: seq<Slot>)
    requires IsPerm(order, |ts|)
    ensures r == Permute(ts, order)
  {
    r := [];
    for i := 0 to |order|
      invariant |r| == i
      invariant forall j :: 0 <= j < i ==> r[j] == ts[order[j]]
    {
      r := r + [ts[order[i]]];
    }
  }

  class Cluster {
    var addr: int
    var id: int
    var nexusCap: nat
    var nexus: seq<Entry>
    var fartargets: Option<seq<Entry>>
    var targets: seq<Slot>

    /** The fields as a value. */
    function Val(): ClusterVal
      reads this
    {
      ClusterVal(addr, id, nexusCap, nexus, fartargets, targets)
    }

    /** `OCFICluster(addr, id, nexus_cap=12)` (ocfi.py:93-99). */
    constructor (addr: int, id: int, nexusCap: nat := DefaultNexusCap)
      ensures Val() == ClusterVal(addr, id, nexusCap, [], Some([]), [])
    {
      this.addr := addr;
      this.id := id;
      this.nexusCap := nexusCap;
      nexus := [];
      fartargets := Some([]);
      targets := [];
    }

    /** `__copy__`: a new cluster with the same fields (ocfi.py:101-106). */
    method Copy() returns (c: Cluster)
      ensures fresh(c) && c.Val() == Val()
    {
      c := new Cluster(addr, id, nexusCap);
      c.nexus := nexus;
      c.targets := targets;
      c.fartargets := fartargets;
    }

    /** `maybe_add_to_nexus` (ocfi.py:108-111). */
    method MaybeAddToNexus(e: Entry)
      modifies this
      ensures Val() == old(Val()).(nexus := MaybeAdd(old(nexus), nexusCap, e))
      ensures old(|nexus|) < nexusCap ==> nexus == old(nexus) + [e]
      ensures old(|nexus|) == nexusCap ==> nexus == old(nexus)
    {
      if |nexus| == nexusCap {
        return;
      }
      nexus := nexus + [e];
    }

    /** `add_target`: append an owned slot and return the reference to it
      (ocfi.py:113-115). */
    method AddTarget(t: int) returns (ref: Entry)
      modifies this
      ensures Val() == old(Val()).(targets := old(targets) + [At(t)])
      ensures ref == Ref(id, |targets| - 1) && targets[ref.slot] == At(t)
    {
      targets := targets + [At(t)];
      ref := Ref(id, |targets| - 1);
    }

    /** `add_fartarget` (ocfi.py:117-118); the list exists outside the
        opaque view. */
    method AddFartarget(e: Entry)
      requires fartargets.Some?
      modifies this
      ensures Val() == old(Val()).(far := Some(old(fartargets.value) + [e]))
    {
      fartargets := Some(fartargets.value + [e]);
    }

    /** `fill_nexus` (ocfi.py:130-140). */
    method FillNexus()
      requires fartargets.Some? && AllRefs(fartargets.value)
      modifies this
      ensures Val() == old(Val()).(nexus := Filled(old(Val())))
    {
      var fartargs := SortRefs(fartargets.value);
      OfferAll(TakeLast(fartargs, nexusCap));
      if |fartargs| < nexusCap {
        OfferClose(|targets| - (nexusCap - |fartargs|));
      }
    }

    /** The first loop of `fill_nexus`: offer each entry in turn
        (ocfi.py:133-134). */
    method OfferAll(es: seq<Entry>)
      modifies this
      ensures Val() == old(Val()).(nexus := AddEach(old(nexus), nexusCap, es))
    {
      var i := 0;
      while i < |es|
        invariant 0 <= i <= |es|
        invariant Val() == old(Val()).(nexus := AddEach(old(nexus), nexusCap, es[..i]))
      {
        AddEachSnoc(old(nexus), nexusCap, es[..i], es[i]);
        assert es[..i + 1] == es[..i] + [es[i]];
        MaybeAddToNexus(es[i]);
        i := i + 1;
      }
      assert es[..|es|] == es;
    }

    /** The second loop of `fill_nexus`: offer the own slots from `lo` on,
        skipping negative positions (ocfi.py:137-140). */
    method OfferClose(lo: int)
      requires lo <= |targets|
      modifies this
      ensures Val() == old(Val()).(nexus := AddEach(old(nexus), nexusCap, SelfRefs(id, lo, |targets|)))
    {
      var closeid := lo;
      while closeid < |targets|
        invariant lo <= closeid <= |targets|
        invariant Val() == old(Val()).(nexus := AddEach(old(nexus), nexusCap, SelfRefs(id, lo, closeid)))
      {
        SelfRefsSnoc(id, lo, closeid);
        if closeid >= 0 {
          AddEachSnoc(old(nexus), nexusCap, SelfRefs(id, lo, closeid), Ref(id, closeid));
          MaybeAddToNexus(Ref(id, closeid));
        } else {
          assert SelfRefs(id, lo, closeid) + [] == SelfRefs(id, lo, closeid);
        }
        closeid := closeid + 1;
      }
    }

    /** `update_refs`: fails when the nexus is not empty, otherwise
        renumbers the cluster id of every far-target (ocfi.py:142-146). */
    method UpdateRefs(newOrder: seq<int>) returns (ok: bool)
      requires fartargets.Some?
      requires forall e :: e in fartargets.value ==> e.Ref? && 0 <= e.cid < |newOrder|
      modifies this
      ensures ok <==> old(nexus) == []
      ensures ok ==> Val() == old(Val()).(far := Some(RenumberClusters(old(fartargets.value), newOrder)))
      ensures !ok ==> Val() == old(Val())
    {
      if nexus != [] {
        return false;
      }
      ghost var far0 := fartargets.value;
      var i := 0;
      while i < |fartargets.value|
        invariant fartargets.Some? && |fartargets.value| == |far0| && 0 <= i <= |far0|
        invariant Val() == old(Val()).(far := fartargets)
        invariant forall j :: 0 <= j < i ==>
                    fartargets.value[j] == RenumberClusters(far0, newOrder)[j]
        invariant forall j :: i <= j < |far0| ==> fartargets.value[j] == far0[j]
      {
        var e := fartargets.value[i];
        assert far0[i] in far0;
        fartargets := Some(fartargets.value[i := Ref(newOrder[e.cid], e.slot)]);
        i := i + 1;
      }
      assert fartargets.value == RenumberClusters(far0, newOrder);
      return true;
    }

    /** `update_inner_refs`: fails when the nexus is not empty, otherwise
        renumbers the slot of every far-target through its owner's reverse
        order (ocfi.py:148-152). */
    method UpdateInnerRefs(clusterOrder: seq<seq<int>>) returns (ok: bool)
      requires fartargets.Some?
      requires forall e :: e in fartargets.value ==>
                 e.Ref? && 0 <= e.cid < |clusterOrder| && 0 <= e.slot < |clusterOrder[e.cid]|
      modifies this
      ensures ok <==> old(nexus) == []
      ensures ok ==> Val() == old(Val()).(far := Some(RenumberSlots(old(fartargets.value), clusterOrder)))
      ensures !ok ==> Val() == old(Val())
    {
      if nexus != [] {
        return false;
      }
      ghost var far0 := fartargets.value;
      var i := 0;
      while i < |fartargets.value|
        invariant fartargets.Some? && |fartargets.value| == |far0| && 0 <= i <= |far0|
        invariant Val() == old(Val()).(far := fartargets)
        invariant forall j :: 0 <= j < i ==>
                    fartargets.value[j] == RenumberSlots(far0, clusterOrder)[j]
        invariant forall j :: i <= j < |far0| ==> fartargets.value[j] == far0[j]
      {
        var e := fartargets.value[i];
        assert far0[i] in far0;
        fartargets := Some(fartargets.value[i := Ref(e.cid, clusterOrder[e.cid][e.slot])]);
        i := i + 1;
      }
      assert fartargets.value == RenumberSlots(far0, clusterOrder);
      return true;
    }

    /** `shuffle` with `new_order` as the arrangement drawn: slot `i` receives
        old slot `new_order[i]`, the slots are a rearrangement of the old
        ones, and the returned reverse order sends each old slot to its new
        position (ocfi.py:154-165). */
    method Shuffle(newOrder: seq<int>) returns (reverseOrder: seq<int>)
      requires IsPerm(newOrder, |targets|)
      modifies this
      ensures Val() == old(Val()).(targets := Permute(old(targets), newOrder))
      ensures reverseOrder == Inverse(newOrder)
      ensures multiset(targets) == multiset(old(targets))
      ensures forall i :: 0 <= i < |targets| ==> targets[reverseOrder[i]] == old(targets)[i]
    {
      reverseOrder := ReverseOrder(newOrder);
      var newtargets := Rearranged(targets, newOrder);
      PermuteIsPermutation(targets, newOrder);
      PermuteInverse(targets, newOrder);
      targets := newtargets;
    }
  }

  // ---------------------------------------------------------------------
  // OCFI

  /** The part of the angr CFG the scheme reads: the target addresses found
      for every candidate indirect branch, in frozenset iteration order, and
      the bytes of every basic block, keyed by address. */
  datatype Cfg = Cfg(branches: map<int, seq<int>>, blocks: map<int, seq<bv8>>)

  /** `tset` as `OCFI.__init__` builds it: branches without targets are
      dropped (ocfi.py:6-9, 223). */
  function ResolvedTargets(cfg: Cfg): TargetSets {
    map b | b in cfg.branches && cfg.branches[b] != [] :: cfg.branches[b]
  }

  /** The values of a list of clusters. */
  function ValsOf(cs: seq<Cluster>): (r: seq<ClusterVal>)
    reads set c | c in cs
    ensures |r| == |cs|
    ensures forall i :: 0 <= i < |cs| ==> r[i] == cs[i].Val()
  {
    if cs == [] then []
    else ValsOf(cs[..|cs| - 1]) + [cs[|cs| - 1].Val()]
  }

  lemma ValsOfSnoc(cs: seq<Cluster>, c: Cluster)
    ensures ValsOf(cs + [c]) == ValsOf(cs) + [c.Val()]
  {
    assert (cs + [c])[..|cs|] == cs;
  }

  /** A freshly built cluster list as the renumberings expect it: `n`
      clusters, valid far-targets, empty nexus. */
  ghost predicate Ready(vs: seq<ClusterVal>, n: int) {
    |vs| == n && RefsOk(vs) && forall k :: 0 <= k < |vs| ==> vs[k].nexus == []
  }

  lemma ClusteringReady(tset: TargetSets)
    requires WellFormed(tset)
    ensures Ready(Clustering(tset), |tset|)
  {
    ClusteringIds(tset);
    ClusteringBackRefs(tset);
  }

  class Ocfi {
    const cfg: Cfg
    const tset: TargetSets
    var clusters: seq<Cluster>

    /** `tset` is what the CFG gives, every target set is a set, and no
        cluster object appears twice. */
    ghost predicate Valid()
      reads this
    {
      && WellFormed(cfg.branches)
      && tset == ResolvedTargets(cfg)
      && NoDup(clusters)
    }

    ghost function Vals(): seq<ClusterVal>
      reads this, set c | c in clusters
    {
      ValsOf(clusters)
    }

    /** `OCFI(cfg)`: collect the target sets and cluster them (ocfi.py:5-10). */
    constructor (cfg: Cfg)
      requires WellFormed(cfg.branches)
      ensures this.cfg == cfg && Valid()
      ensures Vals() == Clustering(ResolvedTargets(cfg))
      ensures forall c :: c in clusters ==> fresh(c)
    {
      this.cfg := cfg;
      tset := ResolvedTargets(cfg);
      clusters := [];
      new;
      DoClustering();
    }

    /** `do_clustering` (ocfi.py:17-41). */
    method DoClustering()
      requires WellFormed(tset)
      modifies this
      ensures NoDup(clusters)
      ensures Vals() == Clustering(tset)
      ensures forall c :: c in clusters ==> fresh(c)
    {
      clusters := BuildClusters(tset);
    }

    /** Assigning `clusters` leaves the values of the clusters alone. */
    method SetClusters(cs: seq<Cluster>, ghost vs: seq<ClusterVal>)
      requires ValsOf(cs) == vs
      modifies this
      ensures clusters == cs && Vals() == vs
    {
      clusters := cs;
    }

    /** `make_portals` (ocfi.py:12-15). */
    method MakePortals()
      requires NoDup(clusters)
      requires forall k :: 0 <= k < |clusters| ==>
                 clusters[k].fartargets.Some? && AllRefs(clusters[k].fartargets.value)
      modifies set c | c in clusters
      ensures Vals() == AllFilled(old(Vals()))
    {
      FillEach(clusters, Vals(), AllFilled(Vals()));
    }

    /** `do_move_targets`, with the CFG's node lookup as the `blocks` map
        (ocfi.py:43-52). */
    method DoMoveTargets()
      requires NoDup(clusters)
      modifies set c | c in clusters
      ensures Vals() == Moved(old(Vals()), cfg.blocks)
    {
      ghost var vs := Vals();
      ghost var want := Moved(vs, cfg.blocks);
      for k := 0 to |clusters|
        invariant forall j :: 0 <= j < |clusters| ==> Phase(clusters[j], vs[j], want[j], j, k)
      {
        assert Phase(clusters[k], vs[k], want[k], k, k);
        var cluster := clusters[k];
        MoveTargets(cluster, cfg.blocks, vs[k]);
      }
      PhaseDone(clusters, vs, want);
    }

    /** `__copy__`: not a copy at all, but a new scheme built from the same
        CFG, whatever has been done to this one (ocfi.py:54-56). */
    method Copy() returns (o: Ocfi)
      requires Valid()
      ensures fresh(o) && o.Valid() && o.cfg == cfg && o.tset == tset
      ensures o.Vals() == Clustering(tset)
      ensures forall c :: c in o.clusters ==> fresh(c)
    {
      o := new Ocfi(cfg);
    }

    /** `with_clusters_shuffled` with `p` as the `shuf_order` drawn: the
        clusters of a fresh clustering, cluster `p[k]` moved to id `k` and
        every far-target renumbered; the receiver is not changed
        (ocfi.py:58-72). */
    method WithClustersShuffled(p: seq<int>) returns (o: Ocfi)
      requires Valid() && IsPerm(p, |tset|)
      ensures fresh(o) && o.Valid() && o.cfg == cfg && o.tset == tset
      ensures forall c :: c in o.clusters ==> fresh(c)
      ensures Ready(Clustering(tset), |tset|)
      ensures o.Vals() == ClustersShuffled(Clustering(tset), p)
    {
      o := Copy();
      ClusteringReady(tset);
      var sorted := RenumberIds(o.clusters, p, Clustering(tset));
      o.SetClusters(sorted, ClustersShuffled(Clustering(tset), p));
    }

    /** `with_bbls_shuffled` with cluster `k` drawing `perms[k]`: the
        clusters of a fresh clustering, slots rearranged and far-targets
        redirected; the receiver is not changed (ocfi.py:74-83). */
    method WithBblsShuffled(perms: seq<seq<int>>) returns (o: Ocfi)
      requires Valid() && SlotPerms(Clustering(tset), perms)
      ensures fresh(o) && o.Valid() && o.cfg == cfg && o.tset == tset
      ensures forall c :: c in o.clusters ==> fresh(c)
      ensures Ready(Clustering(tset), |tset|)
      ensures o.Vals() == BlocksShuffled(Clustering(tset), perms)
    {
      o := Copy();
      ClusteringReady(tset);
      ShuffleSlots(o.clusters, perms, Clustering(tset));
    }
  }

  /** The loops of `do_clustering` (ocfi.py:17-41). */
  method BuildClusters(tset: TargetSets) returns (cs: seq<Cluster>)
    requires WellFormed(tset)
    ensures NoDup(cs) && forall c :: c in cs ==> fresh(c)
    ensures ValsOf(cs) == Clustering(tset)
  {
    var keys := SortedKeys(tset.Keys);
    assert KeysIn(tset, keys);
    cs := [];
    var used: Claims := map[];
    ghost var b := Build([], map[]);
    var i := 0;
    while i < |keys|
      invariant 0 <= i <= |keys|
      invariant NoDup(cs) && forall c :: c in cs ==> fresh(c)
      invariant KeysIn(tset, keys[..i]) && b == BuildFrom(tset, keys[..i])
      invariant ValsOf(cs) == b.clusters && used == b.used
    {
      var a := keys[i];
      BuildFromStep(tset, keys, i);
      var cluster;
      cluster, used := AddBranchCluster(cs, used, a, tset[a], b);
      cs := cs + [cluster];
      b := AddBranch(b, a, tset[a]);
      i := i + 1;
    }
    assert keys[..|keys|] == keys;
  }

  /** One round of the outer loop of `do_clustering`: a new cluster for
      branch `a`, appended to `cs`, that claims the targets `ts` not
      claimed yet (ocfi.py:31-40). */
  method AddBranchCluster(cs: seq<Cluster>, used: Claims, a: int, ts: seq<int>, ghost b: Build)
    returns (cluster: Cluster, used': Claims)
    requires NoDup(cs) && ValsOf(cs) == b.clusters && used == b.used
    ensures fresh(cluster) && NoDup(cs + [cluster])
    ensures ValsOf(cs + [cluster]) == AddBranch(b, a, ts).clusters && used' == AddBranch(b, a, ts).used
  {
    cluster := new Cluster(a, |cs|);
    used' := ClaimTargets(cluster, used, ts);
    NoDupSnoc(cs, cluster);
    ValsOfSnoc(cs, cluster);
  }

  /** The inner loop of `do_clustering` for one branch (ocfi.py:34-39). */
  method ClaimTargets(cluster: Cluster, used: Claims, ts: seq<int>) returns (used': Claims)
    requires cluster.fartargets.Some?
    modifies cluster
    ensures (cluster.Val(), used') == ClaimAll(old(cluster.Val()), used, ts)
  {
    used' := used;
    var j := 0;
    while j < |ts|
      invariant 0 <= j <= |ts|
      invariant (cluster.Val(), used') == ClaimAll(old(cluster.Val()), used, ts[..j])
    {
      var t := ts[j];
      assert ts[..j + 1][..j] == ts[..j];
      if t in used' {
        cluster.AddFartarget(used'[t]);
      } else {
        var ref := cluster.AddTarget(t);
        used' := used'[t := ref];
      }
      j := j + 1;
    }
    assert ts[..|ts|] == ts;
  }

  /** The renumbering loop of `with_clusters_shuffled` and its final sort by
      id, which puts cluster `p[k]` at position `k` (ocfi.py:62-71). */
  method RenumberIds(cs: seq<Cluster>, p: seq<int>, ghost vs: seq<ClusterVal>) returns (sorted: seq<Cluster>)
    requires NoDup(cs) && ValsOf(cs) == vs && Ready(vs, |cs|) && IsPerm(p, |cs|)
    modifies set c | c in cs
    ensures NoDup(sorted) && forall c :: c in sorted ==> c in cs
    ensures ValsOf(sorted) == ClustersShuffled(vs, p)
  {
    var reverseOrder := ReverseOrder(p);
    ghost var want := ClustersShuffled(vs, p);
    forall j | 0 <= j < |vs| ensures forall e :: e in vs[j].far.value ==> 0 <= e.cid < |reverseOrder| {
      forall e | e in vs[j].far.value ensures 0 <= e.cid < |reverseOrder| {
        assert RefOk(vs, e);
      }
    }
    RenumberEach(cs, p, reverseOrder, vs, want);
    // `sorted(clusters, key=id)`: the ids are the positions of `p`
    sorted := Permute(cs, p);
    PermuteNoDup(cs, p);
    PermuteKeepsElems(cs, p);
  }

  /** The loop of `with_clusters_shuffled`: cluster `p[newid]` takes id
      `newid` and renumbers its far-targets (ocfi.py:65-69). */
  method RenumberEach(cs: seq<Cluster>, p: seq<int>, reverseOrder: seq<int>,
                      ghost vs: seq<ClusterVal>, ghost want: seq<ClusterVal>)
    requires NoDup(cs) && ValsOf(cs) == vs && IsPerm(p, |cs|)
    requires forall j :: 0 <= j < |cs| ==>
               && vs[j].nexus == [] && vs[j].far.Some?
               && forall e :: e in vs[j].far.value ==> e.Ref? && 0 <= e.cid < |reverseOrder|
    requires |want| == |cs|
    requires forall i :: 0 <= i < |cs| ==>
               want[i] == vs[p[i]].(id := i, far := Some(RenumberClusters(vs[p[i]].far.value, reverseOrder)))
    modifies set c | c in cs
    ensures forall i :: 0 <= i < |cs| ==> cs[p[i]].Val() == want[i]
  {
    var newid := 0;
    while newid < |p|
      invariant 0 <= newid <= |p|
      invariant forall i :: 0 <= i < |cs| ==> Phase(cs[p[i]], vs[p[i]], want[i], i, newid)
    {
      var oldid := p[newid];
      var newcluster := cs[oldid];
      assert Phase(newcluster, vs[oldid], want[newid], newid, newid);
      RenumberOne(newcluster, newid, reverseOrder, vs[oldid], want[newid]);
      newid := newid + 1;
    }
    forall i | 0 <= i < |cs| ensures cs[p[i]].Val() == want[i] {
      assert Phase(cs[p[i]], vs[p[i]], want[i], i, |p|);
    }
  }

  /** One iteration of the loop of `with_clusters_shuffled`. */
  method RenumberOne(c: Cluster, newid: int, reverseOrder: seq<int>, ghost v: ClusterVal, ghost w: ClusterVal)
    requires c.Val() == v && v.nexus == [] && v.far.Some?
    requires forall e :: e in v.far.value ==> e.Ref? && 0 <= e.cid < |reverseOrder|
    requires w == v.(id := newid, far := Some(RenumberClusters(v.far.value, reverseOrder)))
    modifies c
    ensures c.Val() == w
  {
    c.id := newid;
    var ok := c.UpdateRefs(reverseOrder);
    assert ok;
  }

  /** The loop of `make_portals`: fill every nexus in turn (ocfi.py:13-15). */
  method FillEach(cs: seq<Cluster>, ghost vs: seq<ClusterVal>, ghost want: seq<ClusterVal>)
    requires NoDup(cs) && ValsOf(cs) == vs && |want| == |vs|
    requires forall k :: 0 <= k < |vs| ==> FillStep(vs, want, k)
    modifies set c | c in cs
    ensures ValsOf(cs) == want
  {
    for k := 0 to |cs|
      invariant forall j :: 0 <= j < |cs| ==> Phase(cs[j], vs[j], want[j], j, k)
    {
      assert Phase(cs[k], vs[k], want[k], k, k);
      FillOne(cs, k, vs, want);
    }
    PhaseDone(cs, vs, want);
  }

  /** One iteration of the loop of `make_portals`, at position `k`. */
  method FillOne(cs: seq<Cluster>, k: int, ghost vs: seq<ClusterVal>, ghost want: seq<ClusterVal>)
    requires 0 <= k < |cs| == |vs| == |want| && cs[k].Val() == vs[k]
    requires forall k :: 0 <= k < |vs| ==> FillStep(vs, want, k)
    modifies cs[k]
    ensures cs[k].Val() == want[k]
  {
    assert FillStep(vs, want, k);
    var c := cs[k];
    c.FillNexus();
  }

  /** `want[k]` is `vs[k]` after `fill_nexus`. */
  ghost predicate FillStep(vs: seq<ClusterVal>, want: seq<ClusterVal>, k: int)
    requires 0 <= k < |vs| == |want|
  {
    vs[k].far.Some? && AllRefs(vs[k].far.value) && want[k] == vs[k].(nexus := Filled(vs[k]))
  }

  /** Cluster `c`, at position `j`, holds `after` once the loop has passed
      position `j` and `before` until then. */
  ghost predicate Phase(c: Cluster, before: ClusterVal, after: ClusterVal, j: int, k: int)
    reads c
  {
    c.Val() == if j < k then after else before
  }

  /** Once a loop has passed every position, the clusters hold `after`. */
  lemma PhaseDone(cs: seq<Cluster>, before: seq<ClusterVal>, after: seq<ClusterVal>)
    requires |before| == |after| == |cs|
    requires forall j :: 0 <= j < |cs| ==> Phase(cs[j], before[j], after[j], j, |cs|)
    ensures ValsOf(cs) == after
  {
    forall j | 0 <= j < |cs| ensures ValsOf(cs)[j] == after[j] {
      assert Phase(cs[j], before[j], after[j], j, |cs|);
    }
  }

  /** The clusters after the first loop of `with_bbls_shuffled`: slots
      rearranged, far-targets not yet redirected. */
  function SlotsShuffled(vs: seq<ClusterVal>, perms: seq<seq<int>>): (r: seq<ClusterVal>)
    requires SlotPerms(vs, perms)
    ensures |r| == |vs|
    ensures forall k :: 0 <= k < |vs| ==> r[k] == vs[k].(targets := Permute(vs[k].targets, perms[k]))
  {
    seq(|vs|, k requires 0 <= k < |vs| => vs[k].(targets := Permute(vs[k].targets, perms[k])))
  }

  /** Both loops of `with_bbls_shuffled` (ocfi.py:76-82). */
  method ShuffleSlots(cs: seq<Cluster>, perms: seq<seq<int>>, ghost vs: seq<ClusterVal>)
    requires NoDup(cs) && ValsOf(cs) == vs && Ready(vs, |cs|) && SlotPerms(vs, perms)
    modifies set c | c in cs
    ensures ValsOf(cs) == BlocksShuffled(vs, perms)
  {
    var clusterOrder := ShuffleEach(cs, perms, vs, SlotsShuffled(vs, perms), Inverses(perms));
    RedirectEach(cs, clusterOrder, SlotsShuffled(vs, perms), BlocksShuffled(vs, perms));
  }

  /** The first loop of `with_bbls_shuffled`: shuffle every cluster's slots
      and collect the reverse orders (ocfi.py:76-78). */
  method ShuffleEach(cs: seq<Cluster>, perms: seq<seq<int>>, ghost vs: seq<ClusterVal>,
                     ghost mid: seq<ClusterVal>, ghost orders: seq<seq<int>>)
    returns (clusterOrder: seq<seq<int>>)
    requires NoDup(cs) && ValsOf(cs) == vs && |perms| == |mid| == |orders| == |vs|
    requires forall k :: 0 <= k < |vs| ==> ShuffleStep(vs, perms, mid, orders, k)
    modifies set c | c in cs
    ensures clusterOrder == orders
    ensures ValsOf(cs) == mid
  {
    clusterOrder := [];
    for k := 0 to |cs|
      invariant clusterOrder == orders[..k]
      invariant forall j :: 0 <= j < |cs| ==> Phase(cs[j], vs[j], mid[j], j, k)
    {
      assert Phase(cs[k], vs[k], mid[k], k, k);
      var order := ShuffleOne(cs, k, perms, vs, mid, orders);
      TakeSnoc(orders, k);
      clusterOrder := clusterOrder + [order];
    }
    assert orders[..|cs|] == orders;
    PhaseDone(cs, vs, mid);
  }

  /** `mid[k]` is `vs[k]` with its slots rearranged by `perms[k]`, and
      `orders[k]` is the reverse order `shuffle` returns for it. */
  ghost predicate ShuffleStep(vs: seq<ClusterVal>, perms: seq<seq<int>>, mid: seq<ClusterVal>,
                              orders: seq<seq<int>>, k: int)
    requires 0 <= k < |vs| == |perms| == |mid| == |orders|
  {
    && IsPerm(perms[k], |vs[k].targets|)
    && mid[k] == vs[k].(targets := Permute(vs[k].targets, perms[k]))
    && orders[k] == Inverse(perms[k])
  }

  /** One iteration of the first loop of `with_bbls_shuffled`, at
      position `k`. */
  method ShuffleOne(cs: seq<Cluster>, k: int, perms: seq<seq<int>>, ghost vs: seq<ClusterVal>,
                    ghost mid: seq<ClusterVal>, ghost orders: seq<seq<int>>)
    returns (order: seq<int>)
    requires 0 <= k < |cs| == |vs| && |perms| == |mid| == |orders| == |vs|
    requires forall k :: 0 <= k < |vs| ==> ShuffleStep(vs, perms, mid, orders, k)
    requires cs[k].Val() == vs[k]
    modifies cs[k]
    ensures cs[k].Val() == mid[k] && order == orders[k]
  {
    assert ShuffleStep(vs, perms, mid, orders, k);
    var c := cs[k];
    order := c.Shuffle(perms[k]);
  }

  /** The second loop of `with_bbls_shuffled`: redirect every cluster's
      far-targets through the reverse orders (ocfi.py:79-81). */
  method RedirectEach(cs: seq<Cluster>, clusterOrder: seq<seq<int>>, ghost mid: seq<ClusterVal>,
                      ghost want: seq<ClusterVal>)
    requires NoDup(cs) && ValsOf(cs) == mid && |want| == |mid|
    requires forall k :: 0 <= k < |mid| ==>
               && mid[k].nexus == [] && mid[k].far.Some?
               && (forall e :: e in mid[k].far.value ==>
                     e.Ref? && 0 <= e.cid < |clusterOrder| && 0 <= e.slot < |clusterOrder[e.cid]|)
               && want[k] == mid[k].(far := Some(RenumberSlots(mid[k].far.value, clusterOrder)))
    modifies set c | c in cs
    ensures ValsOf(cs) == want
  {
    for k := 0 to |cs|
      invariant forall j :: 0 <= j < |cs| ==> Phase(cs[j], mid[j], want[j], j, k)
    {
      assert Phase(cs[k], mid[k], want[k], k, k);
      var ok := cs[k].UpdateInnerRefs(clusterOrder);
      assert ok;
    }
    forall j | 0 <= j < |cs| ensures ValsOf(cs)[j] == want[j] {
      assert Phase(cs[j], mid[j], want[j], j, |cs|);
    }
  }

  /** `generate_shuffled_transparent`: slot shuffle, then cluster shuffle.
      The second step copies, which rebuilds from the CFG, so the slot
      shuffle is lost and only `p` shapes the result (ocfi.py:186-187). */
  method GenerateShuffledTransparent(base: Ocfi, perms: seq<seq<int>>, p: seq<int>) returns (o: Ocfi)
    requires base.Valid() && SlotPerms(Clustering(base.tset), perms) && IsPerm(p, |base.tset|)
    ensures fresh(o) && o.Valid() && o.cfg == base.cfg
    ensures Ready(Clustering(base.tset), |base.tset|)
    ensures o.Vals() == ClustersShuffled(Clustering(base.tset), p)
  {
    var shuffled := base.WithBblsShuffled(perms);
    o := shuffled.WithClustersShuffled(p);
  }

  /** `generate_opaque`: copies of the given scheme's clusters with address
      and far-targets hidden; the given scheme is not changed
      (ocfi.py:190-204). */
  method GenerateOpaque(src: Ocfi) returns (o: Ocfi)
    requires src.Valid()
    ensures fresh(o) && o.Valid() && o.cfg == src.cfg
    ensures forall c :: c in o.clusters ==> fresh(c)
    ensures o.Vals() == OpaqueView(old(src.Vals()))
  {
    o := src.Copy();
    var newclusters := CopyClusters(src.clusters);
    HideAll(newclusters, old(src.Vals()));
    o.SetClusters(newclusters, OpaqueView(old(src.Vals())));
  }

  /** The copying loop of `generate_opaque` (ocfi.py:193-195). */
  method CopyClusters(cs: seq<Cluster>) returns (copies: seq<Cluster>)
    ensures NoDup(copies) && forall c :: c in copies ==> fresh(c)
    ensures ValsOf(copies) == ValsOf(cs)
  {
    copies := [];
    for k := 0 to |cs|
      invariant |copies| == k && NoDup(copies) && forall c :: c in copies ==> fresh(c)
      invariant forall j :: 0 <= j < k ==> copies[j].Val() == cs[j].Val()
    {
      var c := cs[k].Copy();
      NoDupSnoc(copies, c);
      copies := copies + [c];
    }
  }

  /** The hiding loop of `generate_opaque` (ocfi.py:200-203). */
  method HideAll(cs: seq<Cluster>, ghost vs: seq<ClusterVal>)
    requires NoDup(cs) && ValsOf(cs) == vs
    modifies set c | c in cs
    ensures ValsOf(cs) == OpaqueView(vs)
  {
    for k := 0 to |cs|
      invariant forall j :: 0 <= j < |cs| ==> Phase(cs[j], vs[j], Hidden(vs[j]), j, k)
    {
      assert Phase(cs[k], vs[k], Hidden(vs[k]), k, k);
      cs[k].addr := -1;
      cs[k].fartargets := None;
    }
    forall j | 0 <= j < |cs| ensures ValsOf(cs)[j] == OpaqueView(vs)[j] {
      assert Phase(cs[j], vs[j], Hidden(vs[j]), j, |cs|);
    }
  }
}
