/** Cluster construction, `OCFI.do_clustering` (ocfi.py:17-41), as a function
    of the branch-to-targets map, and the facts it establishes: cluster ids
    follow ascending branch address, the first cluster to claim a target owns
    it, later claimants hold a back-reference to the owner's slot, and every
    cluster still protects exactly its branch's target set. */
module Construction {
  import opened Seqs
  import opened Types

  /** `tset`: each protected branch address mapped to its target addresses,
      in the order in which iterating the branch's frozenset yields them. */
  type TargetSets = map<int, seq<int>>

  /** A target set is a set: its enumeration repeats no address. */
  predicate WellFormed(tset: TargetSets) {
    forall b :: b in tset ==> NoDup(tset[b])
  }

  /** A freshly constructed `OCFICluster(addr, id)` (ocfi.py:93-99). */
  function NewCluster(addr: int, id: int): ClusterVal {
    ClusterVal(addr, id, DefaultNexusCap, [], Some([]), [])
  }

  /** The claim table `used_targets`: owned address to (owner id, slot). */
  type Claims = map<int, Entry>

  /** One round of the inner loop (ocfi.py:35-39): a claimed target becomes a
      far-target reference to its owner, an unclaimed one is appended to the
      cluster's own slots and recorded with the reference `add_target`
      returns. */
  function Claim(c: ClusterVal, used: Claims, t: int): (ClusterVal, Claims)
    requires c.far.Some?
  {
    if t in used then (c.(far := Some(c.far.value + [used[t]])), used)
    else (c.(targets := c.targets + [At(t)]), used[t := Ref(c.id, |c.targets|)])
  }

  /** The inner loop over the targets `ts` of one branch (ocfi.py:34-39). */
  function ClaimAll(c: ClusterVal, used: Claims, ts: seq<int>): (r: (ClusterVal, Claims))
    requires c.far.Some?
    ensures r.0.far.Some?
  {
    if ts == [] then (c, used)
    else
      var (c', used') := ClaimAll(c, used, ts[..|ts| - 1]);
      Claim(c', used', ts[|ts| - 1])
  }

  /** The state of the outer loop: the `clusters` list and `used_targets`. */
  datatype Build = Build(clusters: seq<ClusterVal>, used: Claims)

  /** One round of the outer loop (ocfi.py:31-40). */
  function AddBranch(b: Build, addr: int, ts: seq<int>): Build {
    var (c, used) := ClaimAll(NewCluster(addr, |b.clusters|), b.used, ts);
    Build(b.clusters + [c], used)
  }

  /** The outer loop over the branch addresses `keys`, in that order. */
  function BuildFrom(tset: TargetSets, keys: seq<int>): Build
    requires KeysIn(tset, keys)
  {
    if keys == [] then Build([], map[])
    else
      var a := keys[|keys| - 1];
      AddBranch(BuildFrom(tset, keys[..|keys| - 1]), a, tset[a])
  }

  /** One more round of the outer loop. */
  lemma BuildFromSnoc(tset: TargetSets, keys: seq<int>, a: int)
    requires KeysIn(tset, keys) && a in tset
    ensures KeysIn(tset, keys + [a])
    ensures BuildFrom(tset, keys + [a]) == AddBranch(BuildFrom(tset, keys), a, tset[a])
  {
    assert (keys + [a])[..|keys|] == keys;
  }

  /** The rounds of the outer loop up to `i + 1` are the rounds up to `i`
      and one more. */
  lemma BuildFromStep(tset: TargetSets, keys: seq<int>, i: int)
    requires KeysIn(tset, keys) && 0 <= i < |keys|
    ensures KeysIn(tset, keys[..i]) && KeysIn(tset, keys[..i + 1])
    ensures BuildFrom(tset, keys[..i + 1]) == AddBranch(BuildFrom(tset, keys[..i]), keys[i], tset[keys[i]])
  {
    assert keys[..i + 1] == keys[..i] + [keys[i]];
    BuildFromSnoc(tset, keys[..i], keys[i]);
  }

  /** Every branch address in `keys` has a target list. */
  predicate KeysIn(tset: TargetSets, keys: seq<int>) {
    forall j :: 0 <= j < |keys| ==> keys[j] in tset
  }

  /** The clusters `do_clustering` builds: branches in ascending address order. */
  function Clustering(tset: TargetSets): seq<ClusterVal> {
    BuildFrom(tset, SortedKeys(tset.Keys)).clusters
  }

  // ---------------------------------------------------------------------
  // The construction invariant

  ghost predicate Shaped(cs: seq<ClusterVal>, keys: seq<int>)
    requires |cs| == |keys|
  {
    forall i :: 0 <= i < |cs| ==>
      && cs[i].addr == keys[i] && cs[i].id == i && cs[i].nexusCap == DefaultNexusCap
      && cs[i].nexus == [] && cs[i].far.Some?
  }

  /** `used_targets` records exactly the owned slots. */
  ghost predicate ClaimsMatch(cs: seq<ClusterVal>, used: Claims) {
    && (forall t :: t in used ==> RefOk(cs, used[t]) && Deref(cs, used[t]) == At(t))
    && (forall i, j :: 0 <= i < |cs| && 0 <= j < |cs[i].targets| ==>
          && cs[i].targets[j].At?
          && cs[i].targets[j].addr in used
          && used[cs[i].targets[j].addr] == Ref(i, j))
  }

  /** Far-targets of cluster `i` point back into earlier clusters, at
      addresses of `src`. */
  ghost predicate FarOk(cs: seq<ClusterVal>, i: int, src: seq<int>)
    requires 0 <= i < |cs|
  {
    cs[i].far.Some? &&
    forall e :: e in cs[i].far.value ==>
      RefOk(cs, e) && e.cid < i && Deref(cs, e).At? && Deref(cs, e).addr in src
  }

  ghost predicate OwnOk(c: ClusterVal, src: seq<int>) {
    forall j :: 0 <= j < |c.targets| ==> c.targets[j].At? && c.targets[j].addr in src
  }

  /** Every address of `src` is claimed, by cluster `i` itself or by a
      cluster that `i` references. */
  ghost predicate Claimed(cs: seq<ClusterVal>, used: Claims, i: int, src: seq<int>)
    requires 0 <= i < |cs| && cs[i].far.Some?
  {
    forall t :: t in src ==>
      t in used && used[t].Ref? && (used[t].cid == i || used[t] in cs[i].far.value)
  }

  /** The targets cluster `i` has consumed so far. */
  function Src(tset: TargetSets, keys: seq<int>, done: seq<int>, i: int): seq<int>
    requires 0 <= i < |keys| && keys[i] in tset
  {
    if i == |keys| - 1 then done else tset[keys[i]]
  }

  /** What cluster `i` has consumed so far points where it should. */
  ghost predicate PerCluster(tset: TargetSets, keys: seq<int>, cs: seq<ClusterVal>, used: Claims,
                             done: seq<int>, i: int)
    requires |cs| == |keys| && (KeysIn(tset, keys)) && 0 <= i < |cs|
  {
    var src := Src(tset, keys, done, i);
    FarOk(cs, i, src) && OwnOk(cs[i], src) && Claimed(cs, used, i, src)
  }

  /** Every cluster but the last has consumed all of its targets, the last
      one has consumed `done`. */
  ghost predicate Good(tset: TargetSets, keys: seq<int>, cs: seq<ClusterVal>, used: Claims, done: seq<int>) {
    && |cs| == |keys|
    && (KeysIn(tset, keys))
    && Shaped(cs, keys)
    && ClaimsMatch(cs, used)
    && (forall i :: 0 <= i < |cs| ==> PerCluster(tset, keys, cs, used, done, i))
    && (forall t :: t in used && used[t].Ref? && used[t].cid == |cs| - 1 ==> t in done)
  }

  function LastTargets(tset: TargetSets, keys: seq<int>): seq<int>
    requires KeysIn(tset, keys)
  {
    if keys == [] then []
    else
      tset[keys[|keys| - 1]]
  }

  /** Clusters whose own slots only grew keep every reference valid and
      pointing at the same content. */
  lemma SlotsGrow(cs: seq<ClusterVal>, cs': seq<ClusterVal>)
    requires |cs'| == |cs|
    requires forall i :: 0 <= i < |cs| ==> Grows(cs[i].targets, cs'[i].targets)
    ensures forall e :: RefOk(cs, e) ==> RefOk(cs', e) && Deref(cs', e) == Deref(cs, e)
  {
    forall e | RefOk(cs, e) ensures RefOk(cs', e) && Deref(cs', e) == Deref(cs, e) {
      assert Grows(cs[e.cid].targets, cs'[e.cid].targets);
    }
  }

  predicate Grows<T(==)>(s: seq<T>, s': seq<T>) {
    |s| <= |s'| && s'[..|s|] == s
  }

  lemma FarOkGrow(cs: seq<ClusterVal>, cs': seq<ClusterVal>, i: int, src: seq<int>, src': seq<int>)
    requires 0 <= i < |cs| == |cs'| && FarOk(cs, i, src)
    requires forall e :: RefOk(cs, e) ==> RefOk(cs', e) && Deref(cs', e) == Deref(cs, e)
    requires cs'[i].far == cs[i].far && forall x :: x in src ==> x in src'
    ensures FarOk(cs', i, src')
  {
  }

  lemma ClaimStep(tset: TargetSets, keys: seq<int>, cs: seq<ClusterVal>, used: Claims,
                  done: seq<int>, t: int)
    requires Good(tset, keys, cs, used, done) && |cs| > 0 && t !in done
    ensures Good(tset, keys, cs[|cs| - 1 := Claim(cs[|cs| - 1], used, t).0],
                 Claim(cs[|cs| - 1], used, t).1, done + [t])
  {
    if t in used {
      ClaimOwned(tset, keys, cs, used, done, t);
    } else {
      ClaimFree(tset, keys, cs, used, done, t);
    }
  }

  /** A target someone already owns becomes a far-target. */
  lemma ClaimOwned(tset: TargetSets, keys: seq<int>, cs: seq<ClusterVal>, used: Claims,
                   done: seq<int>, t: int)
    requires Good(tset, keys, cs, used, done) && |cs| > 0 && t !in done && t in used
    ensures Good(tset, keys, cs[|cs| - 1 := Claim(cs[|cs| - 1], used, t).0],
                 Claim(cs[|cs| - 1], used, t).1, done + [t])
  {
    var n := |cs| - 1;
    var c' := cs[n].(far := Some(cs[n].far.value + [used[t]]));
    assert Claim(cs[n], used, t) == (c', used);
    var cs' := cs[n := c'];
    assert forall k :: 0 <= k < |cs| ==> cs'[k].targets == cs[k].targets;
    SameSlotsMatch(cs, cs', used);
    assert Shaped(cs', keys);
    forall i | 0 <= i < |cs'|
      ensures PerCluster(tset, keys, cs', used, done + [t], i)
    {
      OwnedPerCluster(tset, keys, cs, cs', used, done, t, i);
    }
  }

  /** Changing anything but the slots keeps `used_targets` exact. */
  lemma SameSlotsMatch(cs: seq<ClusterVal>, cs': seq<ClusterVal>, used: Claims)
    requires |cs'| == |cs| && ClaimsMatch(cs, used)
    requires forall k :: 0 <= k < |cs| ==> cs'[k].targets == cs[k].targets
    ensures ClaimsMatch(cs', used)
  {
    forall u | u in used ensures RefOk(cs', used[u]) && Deref(cs', used[u]) == At(u) {
      assert RefOk(cs, used[u]);
    }
  }

  lemma OwnedPerCluster(tset: TargetSets, keys: seq<int>, cs: seq<ClusterVal>, cs': seq<ClusterVal>,
                        used: Claims, done: seq<int>, t: int, i: int)
    requires Good(tset, keys, cs, used, done) && |cs| > 0 && t !in done && t in used
    requires cs' == cs[|cs| - 1 := cs[|cs| - 1].(far := Some(cs[|cs| - 1].far.value + [used[t]]))]
    requires 0 <= i < |cs|
    ensures PerCluster(tset, keys, cs', used, done + [t], i)
  {
    var n := |cs| - 1;
    SlotsGrow(cs, cs');
    var src, src' := Src(tset, keys, done, i), Src(tset, keys, done + [t], i);
    assert PerCluster(tset, keys, cs, used, done, i);
    assert forall x :: x in src ==> x in src';
    if i == n {
      assert used[t].cid != n;
      var e := used[t];
      assert RefOk(cs, e) && Deref(cs, e) == At(t);
      assert FarOk(cs', i, src');
    } else {
      FarOkGrow(cs, cs', i, src, src');
    }
  }

  /** A target nobody owns yet is appended to the cluster's own slots. */
  lemma ClaimFree(tset: TargetSets, keys: seq<int>, cs: seq<ClusterVal>, used: Claims,
                  done: seq<int>, t: int)
    requires Good(tset, keys, cs, used, done) && |cs| > 0 && t !in done && t !in used
    ensures Good(tset, keys, cs[|cs| - 1 := Claim(cs[|cs| - 1], used, t).0],
                 Claim(cs[|cs| - 1], used, t).1, done + [t])
  {
    var n := |cs| - 1;
    var c' := cs[n].(targets := cs[n].targets + [At(t)]);
    var used' := used[t := Ref(n, |cs[n].targets|)];
    assert Claim(cs[n], used, t) == (c', used');
    var cs' := cs[n := c'];
    ClaimFreeMatch(cs, used, t);
    assert Shaped(cs', keys);
    forall i | 0 <= i < |cs'|
      ensures PerCluster(tset, keys, cs', used', done + [t], i)
    {
      FreePerCluster(tset, keys, cs, cs', used, used', done, t, i);
    }
  }

  lemma FreePerCluster(tset: TargetSets, keys: seq<int>, cs: seq<ClusterVal>, cs': seq<ClusterVal>,
                       used: Claims, used': Claims, done: seq<int>, t: int, i: int)
    requires Good(tset, keys, cs, used, done) && |cs| > 0 && t !in done && t !in used
    requires cs' == cs[|cs| - 1 := cs[|cs| - 1].(targets := cs[|cs| - 1].targets + [At(t)])]
    requires used' == used[t := Ref(|cs| - 1, |cs[|cs| - 1].targets|)]
    requires 0 <= i < |cs|
    ensures PerCluster(tset, keys, cs', used', done + [t], i)
  {
    var n := |cs| - 1;
    assert forall k :: 0 <= k < |cs| ==> Grows(cs[k].targets, cs'[k].targets);
    SlotsGrow(cs, cs');
    var src, src' := Src(tset, keys, done, i), Src(tset, keys, done + [t], i);
    assert PerCluster(tset, keys, cs, used, done, i);
    assert forall x :: x in src ==> x in src';
    FarOkGrow(cs, cs', i, src, src');
    assert OwnOk(cs'[i], src');
    assert Claimed(cs', used', i, src');
  }

  lemma ClaimFreeMatch(cs: seq<ClusterVal>, used: Claims, t: int)
    requires ClaimsMatch(cs, used) && |cs| > 0 && t !in used
    requires cs[|cs| - 1].far.Some? && cs[|cs| - 1].id == |cs| - 1
    ensures ClaimsMatch(cs[|cs| - 1 := Claim(cs[|cs| - 1], used, t).0], Claim(cs[|cs| - 1], used, t).1)
  {
    var n := |cs| - 1;
    var c' := cs[n].(targets := cs[n].targets + [At(t)]);
    var used' := used[t := Ref(n, |cs[n].targets|)];
    assert Claim(cs[n], used, t) == (c', used');
    var cs' := cs[n := c'];
    assert forall k :: 0 <= k < |cs| ==> Grows(cs[k].targets, cs'[k].targets);
    SlotsGrow(cs, cs');
    forall u | u in used'
      ensures RefOk(cs', used'[u]) && Deref(cs', used'[u]) == At(u)
    {
      if u != t {
        assert used'[u] == used[u] && RefOk(cs, used[u]);
      }
    }
    forall i, j | 0 <= i < |cs'| && 0 <= j < |cs'[i].targets|
      ensures cs'[i].targets[j].At? && cs'[i].targets[j].addr in used'
      ensures used'[cs'[i].targets[j].addr] == Ref(i, j)
    {
      if i != n || j < |cs[n].targets| {
        assert cs'[i].targets[j] == cs[i].targets[j];
      }
    }
  }

  lemma {:induction false} ClaimAllGood(tset: TargetSets, keys: seq<int>, cs: seq<ClusterVal>, used: Claims,
                                        done: seq<int>, ts: seq<int>)
    requires Good(tset, keys, cs, used, done) && |cs| > 0 && NoDup(done + ts)
    ensures Good(tset, keys, cs[|cs| - 1 := ClaimAll(cs[|cs| - 1], used, ts).0],
                 ClaimAll(cs[|cs| - 1], used, ts).1, done + ts)
    decreases |ts|
  {
    var n := |cs| - 1;
    if ts == [] {
      assert cs[n := cs[n]] == cs;
      assert done + ts == done;
    } else {
      var m := |ts| - 1;
      var front := ts[..m];
      NoDupDropLast(done, ts);
      ClaimAllGood(tset, keys, cs, used, done, front);
      ClaimAllStep(tset, keys, cs, done + front, ts[m], ClaimAll(cs[n], used, front));
    }
  }

  /** One more target of the branch keeps the invariant. */
  lemma ClaimAllStep(tset: TargetSets, keys: seq<int>, cs: seq<ClusterVal>, done: seq<int>, t: int,
                     r1: (ClusterVal, Claims))
    requires |cs| > 0 && t !in done && r1.0.far.Some?
    requires Good(tset, keys, cs[|cs| - 1 := r1.0], r1.1, done)
    ensures Good(tset, keys, cs[|cs| - 1 := Claim(r1.0, r1.1, t).0], Claim(r1.0, r1.1, t).1, done + [t])
  {
    var n := |cs| - 1;
    var cs1 := cs[n := r1.0];
    ClaimStep(tset, keys, cs1, r1.1, done, t);
    assert cs1[n := Claim(r1.0, r1.1, t).0] == cs[n := Claim(r1.0, r1.1, t).0];
  }

  lemma StartBranch(tset: TargetSets, keys: seq<int>, cs: seq<ClusterVal>, used: Claims, a: int)
    requires KeysIn(tset, keys) && a in tset
    requires Good(tset, keys, cs, used, LastTargets(tset, keys))
    ensures Good(tset, keys + [a], cs + [NewCluster(a, |cs|)], used, [])
  {
    var keys', cs' := keys + [a], cs + [NewCluster(a, |cs|)];
    assert forall k :: 0 <= k < |cs| ==> Grows(cs[k].targets, cs'[k].targets);
    SlotsGrow(cs[..], cs'[..|cs|]);
    assert forall e :: RefOk(cs, e) ==> RefOk(cs', e) && Deref(cs', e) == Deref(cs, e);
    assert ClaimsMatch(cs', used);
    forall i | 0 <= i < |cs'|
      ensures PerCluster(tset, keys', cs', used, [], i)
    {
      if i < |cs| {
        var src := Src(tset, keys, LastTargets(tset, keys), i);
        assert Src(tset, keys', [], i) == src;
        assert PerCluster(tset, keys, cs, used, LastTargets(tset, keys), i);
        assert FarOk(cs', i, src);
      }
    }
  }

  lemma {:induction false} BuildFromGood(tset: TargetSets, keys: seq<int>)
    requires WellFormed(tset) && KeysIn(tset, keys)
    ensures var b := BuildFrom(tset, keys);
            Good(tset, keys, b.clusters, b.used, LastTargets(tset, keys))
    decreases |keys|
  {
    if keys != [] {
      var m := |keys| - 1;
      var front, a := keys[..m], keys[m];
      assert keys == front + [a];
      BuildFromGood(tset, front);
      var b := BuildFrom(tset, front);
      StartBranch(tset, front, b.clusters, b.used, a);
      var cs := b.clusters + [NewCluster(a, |b.clusters|)];
      assert [] + tset[a] == tset[a];
      ClaimAllGood(tset, keys, cs, b.used, [], tset[a]);
      assert cs[|cs| - 1] == NewCluster(a, |b.clusters|);
      assert cs[|cs| - 1 := ClaimAll(NewCluster(a, |b.clusters|), b.used, tset[a]).0]
          == BuildFrom(tset, keys).clusters;
    }
  }

  // ---------------------------------------------------------------------
  // What construction guarantees

  lemma Built(tset: TargetSets)
    requires WellFormed(tset)
    ensures var keys := SortedKeys(tset.Keys);
            var b := BuildFrom(tset, keys);
            && KeysIn(tset, keys)
            && Good(tset, keys, b.clusters, b.used, LastTargets(tset, keys))
            && b.clusters == Clustering(tset)
            && forall i :: 0 <= i < |keys| ==> Src(tset, keys, LastTargets(tset, keys), i) == tset[keys[i]]
  {
    var keys := SortedKeys(tset.Keys);
    assert KeysIn(tset, keys);
    BuildFromGood(tset, keys);
  }

  /** One cluster per branch, cluster `i` with id `i`, each starting with an
      empty nexus and the default capacity (ocfi.py:28-33, 93-99). */
  lemma ClusteringIds(tset: TargetSets)
    requires WellFormed(tset)
    ensures var cs := Clustering(tset);
            && |cs| == |tset|
            && IdsArePositions(cs)
            && (forall i :: 0 <= i < |cs| ==>
                  cs[i].nexus == [] && cs[i].far.Some? && cs[i].nexusCap == DefaultNexusCap)
  {
    var keys := SortedKeys(tset.Keys);
    BuiltShape(tset);
    assert Shaped(Clustering(tset), keys);
    assert |tset| == |tset.Keys|;
  }

  /** The clusters are the branches of `tset`, in ascending address order,
      so ids follow address order (ocfi.py:30-33). */
  lemma ClusteringAscending(tset: TargetSets)
    requires WellFormed(tset)
    ensures var cs := Clustering(tset);
            && (set c | c in cs :: c.addr) == tset.Keys
            && (forall i, j :: 0 <= i < j < |cs| ==> cs[i].addr < cs[j].addr)
  {
    var keys := SortedKeys(tset.Keys);
    var cs := Clustering(tset);
    BuiltShape(tset);
    SortedKeysAscending(tset.Keys);
    ShapedAddrs(cs, keys);
    assert Elems(keys) == tset.Keys;
  }

  /** The addresses of clusters shaped after `keys` are the keys, in order. */
  lemma ShapedAddrs(cs: seq<ClusterVal>, keys: seq<int>)
    requires |cs| == |keys| && Shaped(cs, keys) && Ascending(keys)
    ensures (set c | c in cs :: c.addr) == Elems(keys)
    ensures forall i, j :: 0 <= i < j < |cs| ==> cs[i].addr < cs[j].addr
  {
    AddrsAreKeys(cs, keys);
  }

  lemma BuiltShape(tset: TargetSets)
    requires WellFormed(tset)
    ensures var keys := SortedKeys(tset.Keys);
            var cs := Clustering(tset);
            |cs| == |keys| && Shaped(cs, keys)
  {
    Built(tset);
  }

  lemma AddrsAreKeys(cs: seq<ClusterVal>, keys: seq<int>)
    requires |cs| == |keys|
    requires forall i :: 0 <= i < |cs| ==> cs[i].addr == keys[i]
    ensures (set c | c in cs :: c.addr) == Elems(keys)
  {
    forall b | b in Elems(keys) ensures b in (set c | c in cs :: c.addr) {
      var i :| 0 <= i < |keys| && keys[i] == b;
      assert cs[i] in cs;
    }
  }

  /** Every far-target built by construction is a valid reference to a slot of
      a cluster built earlier (ocfi.py:35-39). */
  lemma ClusteringBackRefs(tset: TargetSets)
    requires WellFormed(tset)
    ensures var cs := Clustering(tset);
            && RefsOk(cs)
            && forall i, e :: 0 <= i < |cs| && e in cs[i].far.value ==> e.cid < i
  {
    var keys := SortedKeys(tset.Keys);
    Built(tset);
    var cs := Clustering(tset);
    forall i | 0 <= i < |cs|
      ensures FarOk(cs, i, tset[keys[i]])
    {
      assert PerCluster(tset, keys, cs, BuildFrom(tset, keys).used, LastTargets(tset, keys), i);
    }
  }

  /** First claim wins: every owned slot holds an address of its own branch,
      and no address is owned twice (ocfi.py:35-39). */
  lemma ClusteringOwnership(tset: TargetSets)
    requires WellFormed(tset)
    ensures var cs := Clustering(tset);
            && UniqueOwnership(cs)
            && forall i, j :: 0 <= i < |cs| && 0 <= j < |cs[i].targets| ==>
                 cs[i].addr in tset && cs[i].targets[j].At? && cs[i].targets[j].addr in tset[cs[i].addr]
  {
    var keys := SortedKeys(tset.Keys);
    Built(tset);
    var cs := Clustering(tset);
    var used := BuildFrom(tset, keys).used;
    assert ClaimsMatch(cs, used);
    forall i | 0 <= i < |cs|
      ensures OwnOk(cs[i], tset[cs[i].addr])
    {
      assert PerCluster(tset, keys, cs, used, LastTargets(tset, keys), i);
    }
  }

  /** Each cluster's own slots together with what its far-targets point at
      are exactly its branch's target set (ocfi.py:30-39). */
  lemma ClusteringCovers(tset: TargetSets)
    requires WellFormed(tset)
    ensures var cs := Clustering(tset);
            forall i :: 0 <= i < |cs| ==>
              cs[i].far.Some? && cs[i].addr in tset && Covered(cs, i) == AtSlots(tset[cs[i].addr])
  {
    var keys := SortedKeys(tset.Keys);
    Built(tset);
    var cs := Clustering(tset);
    var used := BuildFrom(tset, keys).used;
    forall i | 0 <= i < |cs|
      ensures Covered(cs, i) == AtSlots(tset[cs[i].addr])
    {
      var ts := tset[keys[i]];
      assert PerCluster(tset, keys, cs, used, LastTargets(tset, keys), i);
      assert FarOk(cs, i, ts) && OwnOk(cs[i], ts) && Claimed(cs, used, i, ts);
      forall s | s in Covered(cs, i) ensures s in AtSlots(ts) {
        if s !in Elems(cs[i].targets) {
          var e :| e in cs[i].far.value && RefOk(cs, e) && Deref(cs, e) == s;
        }
      }
      forall s | s in AtSlots(ts) ensures s in Covered(cs, i) {
        var t :| t in ts && s == At(t);
        var e := used[t];
        assert ClaimsMatch(cs, used);
        if e.cid == i {
          assert cs[i].targets[e.slot] == s;
        }
      }
    }
  }

  /** Every address a branch targets is owned by some cluster; with
      `ClusteringOwnership`, by exactly one (ocfi.py:34-39). */
  lemma ClusteringOwnsEveryTarget(tset: TargetSets, b: int, t: int)
    requires WellFormed(tset) && b in tset && t in tset[b]
    ensures var cs := Clustering(tset);
            exists i, j :: 0 <= i < |cs| && 0 <= j < |cs[i].targets| && cs[i].targets[j] == At(t)
  {
    var keys := SortedKeys(tset.Keys);
    Built(tset);
    var cs := Clustering(tset);
    var used := BuildFrom(tset, keys).used;
    var i :| 0 <= i < |keys| && keys[i] == b;
    assert PerCluster(tset, keys, cs, used, LastTargets(tset, keys), i);
    assert t in used;
    assert ClaimsMatch(cs, used);
    var e := used[t];
    assert cs[e.cid].targets[e.slot] == At(t);
  }
}
