/** `solve_for_addrs` (solver.py:29-139) on the mutable clusters of two
    schemes, proved to compute `SolverSpec.Solve`. Each loop of the source
    is a method of its own; the dictionaries of the source are a map from
    big-cluster position to claims together with the list of its keys in
    insertion order, and a set of hash keys. */
module Solver {
  import opened Seqs
  import opened Types
  import opened Identity
  import opened SolverSpec
  import Scheme

  type Cluster = Scheme.Cluster

  // ---------------------------------------------------------------------
  // Nexus resolution (solver.py:38-68)

  /** The clusters `cs` still have the slots of `vs`: nexus resolution
      reads them and never changes them. */
  ghost predicate TargetsAre(cs: seq<Cluster>, vs: seq<ClusterVal>)
    reads set c | c in cs
  {
    |cs| == |vs| && forall j :: 0 <= j < |cs| ==> cs[j].targets == vs[j].targets
  }

  /** The loop over one cluster's nexus (solver.py:50-57, 61-68). */
  method ResolveNexusOf(cs: seq<Cluster>, c: Cluster, ghost vs: seq<ClusterVal>, ghost v: ClusterVal)
    requires c.Val() == v && TargetsAre(cs, vs)
    requires forall e :: e in v.nexus ==> EntryOk(vs, v, e)
    modifies c
    ensures c.Val() == v.(nexus := ResolveNexus(vs, v, v.nexus)) && TargetsAre(cs, vs)
  {
    ghost var want := ResolveNexus(vs, v, v.nexus);
    for i := 0 to |c.nexus|
      invariant c.Val() == v.(nexus := c.nexus) && |c.nexus| == |v.nexus|
      invariant forall j :: 0 <= j < i ==> c.nexus[j] == want[j]
      invariant forall j :: i <= j < |v.nexus| ==> c.nexus[j] == v.nexus[j]
      invariant TargetsAre(cs, vs)
    {
      var e := c.nexus[i];
      assert e in v.nexus;
      if e.cid == c.id {
        c.nexus := c.nexus[i := SelfSentinel(|c.targets|)];
      } else {
        var owner := cs[e.cid];
        c.nexus := c.nexus[i := Resolved(owner.targets[e.slot], Elems(owner.targets))];
      }
    }
    assert c.nexus == want;
  }

  /** The far-target branch for a big cluster (solver.py:43-49). */
  method ResolveBig(cs: seq<Cluster>, c: Cluster, ghost vs: seq<ClusterVal>, ghost v: ClusterVal)
    requires c.Val() == v && TargetsAre(cs, vs) && v.far.Some?
    requires forall e :: e in v.far.value ==> RefOk(vs, e)
    modifies c
    ensures TargetsAre(cs, vs)
    ensures c.Val() == v.(far := Some(ResolveFar(vs, v.far.value) + [SelfSentinel(|v.targets|)]),
                          nexus := ResolveFar(vs, v.far.value) + [SelfSentinel(|v.targets|), BigSentinel])
  {
    ghost var want := ResolveFar(vs, v.far.value);
    for i := 0 to |c.fartargets.value|
      invariant c.Val() == v.(far := c.fartargets) && c.fartargets.Some?
      invariant |c.fartargets.value| == |v.far.value|
      invariant forall j :: 0 <= j < i ==> c.fartargets.value[j] == want[j]
      invariant forall j :: i <= j < |v.far.value| ==> c.fartargets.value[j] == v.far.value[j]
      invariant TargetsAre(cs, vs)
    {
      var e := c.fartargets.value[i];
      assert e in v.far.value;
      var owner := cs[e.cid];
      c.fartargets := Some(c.fartargets.value[i := Resolved(owner.targets[e.slot], Elems(owner.targets))]);
    }
    assert c.fartargets.value == want;
    c.fartargets := Some(c.fartargets.value + [SelfSentinel(|c.targets|)]);
    c.nexus := c.fartargets.value + [BigSentinel];
  }

  /** `want[k]` is the local cluster `vs[k]` after the first loop. */
  ghost predicate LocalStep(vs: seq<ClusterVal>, want: seq<ClusterVal>, k: int)
    requires 0 <= k < |vs| == |want|
  {
    LocalClusterOk(vs, vs[k]) && want[k] == ResolvedLocal(vs, vs[k])
  }

  /** One iteration of the first loop, at position `k`: a big cluster has
      its far-targets resolved, any other its nexus (solver.py:39-57). */
  method ResolveLocalOne(cs: seq<Cluster>, k: int, ghost vs: seq<ClusterVal>, ghost want: seq<ClusterVal>)
    returns (big: bool)
    requires 0 <= k < |cs| == |vs| == |want| && cs[k].Val() == vs[k] && TargetsAre(cs, vs)
    requires forall k :: 0 <= k < |vs| ==> LocalStep(vs, want, k)
    modifies cs[k]
    ensures vs[k].far.Some? && big == IsBig(vs[k]) && cs[k].Val() == want[k] && TargetsAre(cs, vs)
  {
    assert LocalStep(vs, want, k);
    var c := cs[k];
    big := |c.fartargets.value| >= c.nexusCap;
    if big {
      ResolveBig(cs, c, vs, vs[k]);
    } else {
      ResolveNexusOf(cs, c, vs, vs[k]);
    }
  }

  /** After the first loop has passed `k` clusters, `bigIds` lists the big
      ones among them and each has an empty claim list. */
  ghost predicate BigBook(vs: seq<ClusterVal>, k: int, bigIds: seq<int>, claims: map<int, seq<int>>)
    requires 0 <= k <= |vs| && forall j :: 0 <= j < |vs| ==> vs[j].far.Some?
  {
    && bigIds == BigIds(vs[..k])
    && (forall x :: x in claims <==> x in bigIds)
    && (forall x :: x in claims ==> claims[x] == [])
  }

  lemma BigBookStep(vs: seq<ClusterVal>, k: int, bigIds: seq<int>, claims: map<int, seq<int>>)
    requires 0 <= k < |vs| && forall j :: 0 <= j < |vs| ==> vs[j].far.Some?
    requires BigBook(vs, k, bigIds, claims)
    ensures IsBig(vs[k]) ==> BigBook(vs, k + 1, bigIds + [k], claims[k := []])
    ensures !IsBig(vs[k]) ==> BigBook(vs, k + 1, bigIds, claims)
  {
    assert vs[..k + 1][..k] == vs[..k];
  }

  /** The first loop (solver.py:38-57): the local scheme becomes its
      `LocalView`, and `big_nexus_clusters` holds an empty claim list for
      each big cluster, keyed in list order. */
  method ResolveLocalAll(cs: seq<Cluster>, ghost vs: seq<ClusterVal>, ghost want: seq<ClusterVal>)
    returns (bigIds: seq<int>, claims: map<int, seq<int>>)
    requires NoDup(cs) && Scheme.ValsOf(cs) == vs && LocalOk(vs) && IdsArePositions(vs) && |want| == |vs|
    requires forall k :: 0 <= k < |vs| ==> LocalStep(vs, want, k)
    modifies set c | c in cs
    ensures Scheme.ValsOf(cs) == want
    ensures bigIds == BigIds(vs)
    ensures forall x :: x in claims <==> x in bigIds
    ensures forall x :: x in claims ==> claims[x] == []
  {
    bigIds, claims := [], map[];
    assert TargetsAre(cs, vs);
    for k := 0 to |cs|
      invariant forall j :: 0 <= j < |cs| ==> Scheme.Phase(cs[j], vs[j], want[j], j, k)
      invariant TargetsAre(cs, vs)
      invariant BigBook(vs, k, bigIds, claims)
    {
      assert Scheme.Phase(cs[k], vs[k], want[k], k, k);
      var id := cs[k].id;
      var big := ResolveLocalOne(cs, k, vs, want);
      BigBookStep(vs, k, bigIds, claims);
      if big {
        bigIds := bigIds + [id];
        claims := claims[id := []];
      }
    }
    assert vs[..|cs|] == vs;
    Scheme.PhaseDone(cs, vs, want);
  }

  /** The second loop (solver.py:59-68): `false` as soon as a target cluster
      has far-targets; otherwise the target scheme becomes its `TargetView`. */
  method ResolveTargetAll(ts: seq<Cluster>, ghost ws: seq<ClusterVal>, ghost want: seq<ClusterVal>)
    returns (ok: bool)
    requires NoDup(ts) && Scheme.ValsOf(ts) == ws && |want| == |ws|
    requires forall k :: 0 <= k < |ws| ==> TargetStep(ws, want, k)
    modifies set c | c in ts
    ensures ok <==> Opaque(ws)
    ensures ok ==> Scheme.ValsOf(ts) == want
  {
    assert TargetsAre(ts, ws);
    for k := 0 to |ts|
      invariant forall j :: 0 <= j < |ts| ==> Scheme.Phase(ts[j], ws[j], want[j], j, k)
      invariant TargetsAre(ts, ws)
      invariant forall j :: 0 <= j < k ==> NoFar(ws[j])
    {
      assert Scheme.Phase(ts[k], ws[k], want[k], k, k);
      ok := ResolveTargetOne(ts, k, ws, want);
      if !ok {
        return;
      }
    }
    Scheme.PhaseDone(ts, ws, want);
    return true;
  }

  /** `want[k]` is the target cluster `ws[k]` after the second loop. */
  ghost predicate TargetStep(ws: seq<ClusterVal>, want: seq<ClusterVal>, k: int)
    requires 0 <= k < |ws| == |want|
  {
    && (forall e :: e in ws[k].nexus ==> EntryOk(ws, ws[k], e))
    && want[k] == ws[k].(nexus := ResolveNexus(ws, ws[k], ws[k].nexus))
  }

  /** One iteration of the second loop, at position `k`: the assertion,
      then the nexus. */
  method ResolveTargetOne(ts: seq<Cluster>, k: int, ghost ws: seq<ClusterVal>, ghost want: seq<ClusterVal>)
    returns (ok: bool)
    requires 0 <= k < |ts| == |ws| == |want| && ts[k].Val() == ws[k] && TargetsAre(ts, ws)
    requires forall k :: 0 <= k < |ws| ==> TargetStep(ws, want, k)
    modifies ts[k]
    ensures TargetsAre(ts, ws)
    ensures ok <==> NoFar(ws[k])
    ensures ok ==> ts[k].Val() == want[k]
  {
    assert TargetStep(ws, want, k);
    var c := ts[k];
    if c.fartargets.Some? && c.fartargets.value != [] {
      return false;
    }
    ResolveNexusOf(ts, c, ws, ws[k]);
    return true;
  }

  // ---------------------------------------------------------------------
  // Duplicates (solver.py:70-79)

  /** `d` holds the hash key of each of the first `k` local clusters, with
      `true` exactly when no other among them shares it. */
  ghost predicate UndupBook(L: seq<ClusterVal>, k: int, d: map<HashInput, bool>)
    requires 0 <= k <= |L|
  {
    forall h :: (h in d <==> CountKey(L[..k], h) > 0) && (h in d ==> (d[h] <==> CountKey(L[..k], h) == 1))
  }

  lemma UndupBookStep(L: seq<ClusterVal>, k: int, d: map<HashInput, bool>)
    requires 0 <= k < |L| && UndupBook(L, k, d)
    ensures var h := HashKey(L[k]);
            UndupBook(L, k + 1, if h in d then d[h := false] else d[h := true])
  {
    assert L[..k + 1][..k] == L[..k];
  }

  /** The loop that fills `unduplicated_real_clusters_dict` and the set
      comprehension after it (solver.py:72-79): the hash keys that exactly
      one local cluster has. */
  method UndupKeys(ls: seq<Cluster>, ghost L: seq<ClusterVal>) returns (undup: set<HashInput>)
    requires Scheme.ValsOf(ls) == L
    ensures forall h :: h in undup <==> CountKey(L, h) == 1
  {
    var d: map<HashInput, bool> := map[];
    for k := 0 to |ls|
      invariant UndupBook(L, k, d)
    {
      UndupBookStep(L, k, d);
      var h := HashKey(ls[k].Val());
      if h in d {
        d := d[h := false];
      } else {
        d := d[h := true];
      }
    }
    assert L[..|ls|] == L;
    undup := set h | h in d && d[h];
  }

  /** A lookup in `unduplicated_real_clusters` finds `c` exactly when `c`
      is unduplicated among the local clusters. */
  lemma UndupKeysMeanUnduplicated(L: seq<ClusterVal>, undup: set<HashInput>, c: ClusterVal)
    requires forall h :: h in undup <==> CountKey(L, h) == 1
    ensures HashKey(c) in undup <==> Unduplicated(L, c)
  {
    CountKeyIsCountEq(L, c);
  }

  /** `clus in ocfilocal.clusters` (solver.py:87). */
  method Contains(ls: seq<Cluster>, t: ClusterVal, ghost L: seq<ClusterVal>) returns (found: bool)
    requires Scheme.ValsOf(ls) == L
    ensures found <==> MemberEq(L, t)
  {
    for i := 0 to |ls|
      invariant forall j :: 0 <= j < i ==> !Eq(L[j], t)
    {
      if Eq(ls[i].Val(), t) {
        return true;
      }
    }
    return false;
  }

  /** `ocfilocal.clusters.index(clus)` (solver.py:119). */
  method IndexEq(ls: seq<Cluster>, t: ClusterVal, ghost L: seq<ClusterVal>) returns (i: nat)
    requires Scheme.ValsOf(ls) == L && MemberEq(L, t)
    ensures i == FirstEq(L, t)
  {
    i := 0;
    while !Eq(ls[i].Val(), t)
      invariant i <= FirstEq(L, t)
      decreases FirstEq(L, t) - i
    {
      i := i + 1;
    }
  }

  // ---------------------------------------------------------------------
  // Matching the target clusters (solver.py:82-122)

  /** The inner `for ... else` (solver.py:95-98): every nexus entry of the
      candidate is among those of the big cluster. */
  method NexusWithin(tn: seq<Entry>, bn: seq<Entry>) returns (all: bool)
    ensures all <==> forall e :: e in tn ==> e in bn
  {
    for i := 0 to |tn|
      invariant forall j :: 0 <= j < i ==> tn[j] in bn
    {
      if tn[i] !in bn {
        return false;
      }
    }
    return true;
  }

  /** After the loop over the big clusters `ks` has passed `q` of them for
      the candidate `t`: what `matched`, `failed` and the claim lists say. */
  ghost predicate TryBook(L: seq<ClusterVal>, ks: seq<int>, q: int, t: ClusterVal,
                          claims0: map<int, seq<int>>, claims: map<int, seq<int>>, matched: bool, failed: bool)
    requires 0 <= q <= |ks| && InRange(ks, |L|)
  {
    && (matched <==> FitCount(L, ks[..q], t) >= 1)
    && (failed <==> FitCount(L, ks[..q], t) >= 2)
    && (forall x :: x in claims <==> x in claims0)
    && (forall i :: 0 <= i < |ks| && ks[i] in claims0 ==>
          claims[ks[i]] == claims0[ks[i]] + if i < q && Fits(L[ks[i]], t) then [t.id] else [])
  }

  lemma TryBookStep(L: seq<ClusterVal>, ks: seq<int>, q: int, t: ClusterVal,
                    claims0: map<int, seq<int>>, claims: map<int, seq<int>>, matched: bool, failed: bool)
    requires 0 <= q < |ks| && InRange(ks, |L|) && Ascending(ks) && ks[q] in claims0
    requires TryBook(L, ks, q, t, claims0, claims, matched, failed)
    ensures var k := ks[q];
            var fit := Fits(L[k], t);
            TryBook(L, ks, q + 1, t, claims0, if fit then claims[k := claims[k] + [t.id]] else claims,
                    matched || fit, failed || (fit && matched))
  {
    assert ks[..q + 1][..q] == ks[..q];
  }

  /** The loop over `big_nexus_clusters` for one candidate
      (solver.py:89-106): whether it fits some big cluster, whether it fits
      two or more, and the claim lists with its id appended to those of the
      big clusters it fits. */
  method TryBig(ls: seq<Cluster>, ks: seq<int>, claims0: map<int, seq<int>>, t: ClusterVal,
                ghost L: seq<ClusterVal>)
    returns (matched: bool, failed: bool, claims: map<int, seq<int>>)
    requires Scheme.ValsOf(ls) == L && InRange(ks, |L|) && Ascending(ks)
    requires forall i :: 0 <= i < |ks| ==> ks[i] in claims0
    ensures matched <==> FitCount(L, ks, t) >= 1
    ensures failed <==> FitCount(L, ks, t) >= 2
    ensures forall x :: x in claims <==> x in claims0
    ensures forall i :: 0 <= i < |ks| ==>
              claims[ks[i]] == claims0[ks[i]] + if Fits(L[ks[i]], t) then [t.id] else []
  {
    matched, failed, claims := false, false, claims0;
    for q := 0 to |ks|
      invariant TryBook(L, ks, q, t, claims0, claims, matched, failed)
    {
      TryBookStep(L, ks, q, t, claims0, claims, matched, failed);
      var k := ks[q];
      var bn := ls[k];
      var fit := false;
      if Elems(bn.targets) == Elems(t.targets) {
        fit := NexusWithin(t.nexus, bn.nexus);
      }
      if fit {
        if matched {
          failed := true;
        }
        matched := true;
        claims := claims[k := claims[k] + [t.id]];
      }
    }
    assert ks[..|ks|] == ks;
  }

  /** No cluster of one scheme is a cluster of the other. */
  ghost predicate Apart(ls: seq<Cluster>, ts: seq<Cluster>) {
    forall c :: c in ls ==> c !in ts
  }

  /** The direct match for a target cluster that is no candidate
      (solver.py:114-122). */
  method DirectOne(ls: seq<Cluster>, t: Cluster, undup: set<HashInput>,
                   ghost L: seq<ClusterVal>, ghost v: ClusterVal, ghost w: ClusterVal)
    requires Scheme.ValsOf(ls) == L && t.Val() == v
    requires forall h :: h in undup <==> CountKey(L, h) == 1
    requires !Candidate(L, v) && w == v.(addr := DirectAddr(L, v))
    modifies t
    ensures t.Val() == w
  {
    UndupKeysMeanUnduplicated(L, undup, v);
    if HashKey(t.Val()) in undup {
      UniqueEq(L, v);
      // `assert clus in ocfilocal.clusters` (solver.py:118)
      assert MemberEq(L, v);
      var i := IndexEq(ls, t.Val(), L);
      // `assert clus not in ocfilocal.clusters[:i] + ocfilocal.clusters[i+1:]` (solver.py:121)
      ghost var others := L[..i] + L[i + 1..];
      assert !MemberEq(others, v) by {
        forall j | 0 <= j < |others| ensures !Eq(others[j], v) {
          assert others[j] == if j < i then L[j] else L[j + 1];
        }
      }
      t.addr := ls[i].addr;
    }
  }

  /** After the matching loop has passed `j` target clusters: the claim
      lists, the skip set, and no candidate so far without a big cluster. */
  ghost predicate MatchBook(L: seq<ClusterVal>, ks: seq<int>, T: seq<ClusterVal>, j: int,
                            claims: map<int, seq<int>>, skip: set<int>)
    requires 0 <= j <= |T| && InRange(ks, |L|)
  {
    && (forall x :: x in claims <==> x in ks)
    && (forall i :: 0 <= i < |ks| ==> claims[ks[i]] == Claims(L, T[..j], ks[i]))
    && skip == Skipped(L, ks, T[..j])
    && (forall i :: 0 <= i < j ==> !(Candidate(L, T[i]) && FitCount(L, ks, T[i]) == 0))
  }

  lemma MatchBookCandidate(L: seq<ClusterVal>, ks: seq<int>, T: seq<ClusterVal>, j: int,
                           claims: map<int, seq<int>>, claims': map<int, seq<int>>, skip: set<int>, failed: bool)
    requires 0 <= j < |T| && InRange(ks, |L|) && MatchBook(L, ks, T, j, claims, skip)
    requires Candidate(L, T[j]) && FitCount(L, ks, T[j]) >= 1
    requires failed <==> FitCount(L, ks, T[j]) >= 2
    requires forall x :: x in claims' <==> x in claims
    requires forall i :: 0 <= i < |ks| ==>
               claims'[ks[i]] == claims[ks[i]] + if Fits(L[ks[i]], T[j]) then [T[j].id] else []
    ensures MatchBook(L, ks, T, j + 1, claims', if failed then skip + {T[j].id} else skip)
  {
    assert T[..j + 1][..j] == T[..j];
  }

  lemma MatchBookOther(L: seq<ClusterVal>, ks: seq<int>, T: seq<ClusterVal>, j: int,
                       claims: map<int, seq<int>>, skip: set<int>)
    requires 0 <= j < |T| && InRange(ks, |L|) && MatchBook(L, ks, T, j, claims, skip)
    requires !Candidate(L, T[j])
    ensures MatchBook(L, ks, T, j + 1, claims, skip)
  {
    assert T[..j + 1][..j] == T[..j];
  }

  /** The loop over the target clusters (solver.py:82-122): `false` when a
      candidate fits no big cluster; otherwise the claim lists, the skip set
      and the target clusters after the direct match. */
  method MatchTargets(ls: seq<Cluster>, ts: seq<Cluster>, ks: seq<int>, claims0: map<int, seq<int>>,
                      undup: set<HashInput>, ghost L: seq<ClusterVal>, ghost T: seq<ClusterVal>,
                      ghost want: seq<ClusterVal>)
    returns (ok: bool, claims: map<int, seq<int>>, skip: set<int>)
    requires NoDup(ts) && Apart(ls, ts) && Scheme.ValsOf(ls) == L && Scheme.ValsOf(ts) == T
    requires InRange(ks, |L|) && Ascending(ks)
    requires (forall x :: x in claims0 <==> x in ks) && forall x :: x in claims0 ==> claims0[x] == []
    requires forall h :: h in undup <==> CountKey(L, h) == 1
    requires |want| == |T| && forall j :: 0 <= j < |T| ==> want[j] == T[j].(addr := DirectAddr(L, T[j]))
    modifies set c | c in ts
    ensures ok <==> !Stuck(L, ks, T)
    ensures ok ==> MatchBook(L, ks, T, |T|, claims, skip) && Scheme.ValsOf(ts) == want
  {
    claims, skip := claims0, {};
    for j := 0 to |ts|
      invariant forall i :: 0 <= i < |ts| ==> Scheme.Phase(ts[i], T[i], want[i], i, j)
      invariant Scheme.ValsOf(ls) == L
      invariant MatchBook(L, ks, T, j, claims, skip)
    {
      assert Scheme.Phase(ts[j], T[j], want[j], j, j);
      ok, claims, skip := MatchOne(ls, ts[j], ks, claims, skip, undup, L, T, j, want[j]);
      if !ok {
        assert Candidate(L, T[j]) && FitCount(L, ks, T[j]) == 0;
        return;
      }
    }
    Scheme.PhaseDone(ts, T, want);
    ok := true;
  }

  /** One iteration of the matching loop, for the target cluster `t` at
      position `j` (solver.py:87-122). */
  method MatchOne(ls: seq<Cluster>, t: Cluster, ks: seq<int>, claims: map<int, seq<int>>, skip: set<int>,
                  undup: set<HashInput>, ghost L: seq<ClusterVal>, ghost T: seq<ClusterVal>, ghost j: int,
                  ghost w: ClusterVal)
    returns (ok: bool, claims': map<int, seq<int>>, skip': set<int>)
    requires Scheme.ValsOf(ls) == L && t !in ls && 0 <= j < |T| && t.Val() == T[j]
    requires InRange(ks, |L|) && Ascending(ks) && MatchBook(L, ks, T, j, claims, skip)
    requires forall h :: h in undup <==> CountKey(L, h) == 1
    requires w == T[j].(addr := DirectAddr(L, T[j]))
    modifies t
    ensures Scheme.ValsOf(ls) == L
    ensures ok <==> !(Candidate(L, T[j]) && FitCount(L, ks, T[j]) == 0)
    ensures ok ==> t.Val() == w && MatchBook(L, ks, T, j + 1, claims', skip')
  {
    var inLocal := Contains(ls, t.Val(), L);
    if !inLocal && |t.nexus| == CandidateLen {
      var matched, failed;
      matched, failed, claims' := TryBig(ls, ks, claims, t.Val(), L);
      skip' := skip;
      if !matched {
        return false, claims', skip';
      }
      MatchBookCandidate(L, ks, T, j, claims, claims', skip, failed);
      if failed {
        skip' := skip + {t.id};
      }
    } else {
      claims', skip' := claims, skip;
      MatchBookOther(L, ks, T, j, claims, skip);
      DirectOne(ls, t, undup, L, T[j], w);
    }
    return true, claims', skip';
  }

  // ---------------------------------------------------------------------
  // Committing the big clusters (solver.py:125-139)

  /** Target cluster `j` holds `T[j]` with address `addrs[j]`. */
  ghost predicate AddrsAre(ts: seq<Cluster>, T: seq<ClusterVal>, addrs: seq<int>)
    reads set c | c in ts
  {
    |ts| == |T| == |addrs| && forall j :: 0 <= j < |ts| ==> ts[j].Val() == T[j].(addr := addrs[j])
  }

  lemma AddrsAreVals(ts: seq<Cluster>, T: seq<ClusterVal>, addrs: seq<int>)
    requires |ts| == |T| == |addrs|
    ensures AddrsAre(ts, T, addrs) <==> Scheme.ValsOf(ts) == WithAddrs(T, addrs)
  {
    if AddrsAre(ts, T, addrs) {
      assert Scheme.ValsOf(ts) == WithAddrs(T, addrs);
    }
  }

  /** `ocfitarget.clusters[j].addr = a` (solver.py:137). */
  method SetAddr(ts: seq<Cluster>, j: int, a: int, ghost T: seq<ClusterVal>, ghost addrs: seq<int>)
    requires NoDup(ts) && 0 <= j < |ts| && AddrsAre(ts, T, addrs)
    modifies ts[j]
    ensures AddrsAre(ts, T, addrs[j := a])
  {
    ts[j].addr := a;
  }

  /** Once the last loop has stopped at `assert l`, it stays stopped. */
  lemma {:induction false} CommitStaysNone(L: seq<ClusterVal>, T: seq<ClusterVal>, ks: seq<int>, n: int,
                                          skip: set<int>, addrs: seq<int>)
    requires InRange(ks, |L|) && IdsArePositions(T) && |addrs| == |T| && 0 <= n <= |ks|
    requires Commit(L, T, ks[..n], skip, addrs) == None
    ensures Commit(L, T, ks, skip, addrs) == None
    decreases |ks| - n
  {
    if n < |ks| {
      assert ks[..n + 1][..n] == ks[..n];
      CommitStaysNone(L, T, ks, n + 1, skip, addrs);
    } else {
      assert ks[..n] == ks;
    }
  }

  /** The last loop (solver.py:125-139): `false` at `assert l`; otherwise
      the hit and miss counts and the addresses `Commit` gives. */
  method CommitBig(ls: seq<Cluster>, ts: seq<Cluster>, ks: seq<int>, claims: map<int, seq<int>>,
                   skip: set<int>, undup: set<HashInput>,
                   ghost L: seq<ClusterVal>, ghost T: seq<ClusterVal>, ghost a0: seq<int>)
    returns (ok: bool, hits: nat, misses: nat)
    requires NoDup(ts) && Apart(ls, ts) && Scheme.ValsOf(ls) == L && IdsArePositions(T)
    requires InRange(ks, |L|) && AddrsAre(ts, T, a0)
    requires forall x :: x in claims <==> x in ks
    requires forall i :: 0 <= i < |ks| ==> claims[ks[i]] == Claims(L, T, ks[i])
    requires forall h :: h in undup <==> CountKey(L, h) == 1
    modifies set c | c in ts
    ensures ok <==> Commit(L, T, ks, skip, a0).Some?
    ensures ok ==> var r := Commit(L, T, ks, skip, a0).value;
                   hits == r.hits && misses == r.misses && AddrsAre(ts, T, r.addrs)
  {
    hits, misses := 0, 0;
    ghost var addrs := a0;
    for q := 0 to |ks|
      invariant Commit(L, T, ks[..q], skip, a0) == Some(Tally(addrs, hits, misses))
      invariant AddrsAre(ts, T, addrs)
      invariant Scheme.ValsOf(ls) == L
    {
      assert ks[..q + 1][..q] == ks[..q];
      ok, hits, misses, addrs := CommitOne(ls, ts, ks[q], claims, skip, undup, L, T, hits, misses, addrs);
      if !ok {
        CommitStaysNone(L, T, ks, q + 1, skip, a0);
        return;
      }
    }
    assert ks[..|ks|] == ks;
    ok := true;
  }

  /** One iteration of the last loop, for the big cluster at position `k`
      (solver.py:129-137). */
  method CommitOne(ls: seq<Cluster>, ts: seq<Cluster>, k: int, claims: map<int, seq<int>>,
                   skip: set<int>, undup: set<HashInput>, ghost L: seq<ClusterVal>, ghost T: seq<ClusterVal>,
                   hits: nat, misses: nat, ghost addrs: seq<int>)
    returns (ok: bool, hits': nat, misses': nat, ghost addrs': seq<int>)
    requires NoDup(ts) && Scheme.ValsOf(ls) == L && IdsArePositions(T) && 0 <= k < |L|
    requires AddrsAre(ts, T, addrs) && k in claims && claims[k] == Claims(L, T, k)
    requires forall h :: h in undup <==> CountKey(L, h) == 1
    modifies set c | c in ts
    ensures var r := CommitStep(L, T, k, skip, Some(Tally(addrs, hits, misses)));
            ok <==> r.Some?
    ensures ok ==> CommitStep(L, T, k, skip, Some(Tally(addrs, hits, misses))) == Some(Tally(addrs', hits', misses'))
    ensures ok ==> AddrsAre(ts, T, addrs')
  {
    hits', misses', addrs' := hits, misses, addrs;
    UndupKeysMeanUnduplicated(L, undup, L[k]);
    if HashKey(ls[k].Val()) in undup {
      var l := claims[k];
      if l == [] {
        return false, hits', misses', addrs';
      }
      if |l| != 1 || l[0] in skip {
        misses' := misses + 1;
      } else {
        hits' := hits + 1;
        ClaimsAreCandidates(L, T, k, l[0]);
        SetAddr(ts, l[0], ls[k].addr, T, addrs);
        addrs' := addrs[l[0] := L[k].addr];
      }
    }
    ok := true;
  }

  // ---------------------------------------------------------------------
  // The whole pass

  /** `solve_for_addrs(ocfilocal, ocfitarget)` (solver.py:29-139): the
      outcome `Solve` gives; when it solves, the local scheme is its
      `LocalView` and the target clusters hold the result. */
  method SolveForAddrs(local: Scheme.Ocfi, target: Scheme.Ocfi) returns (out: Outcome)
    requires NoDup(local.clusters) && NoDup(target.clusters) && Apart(local.clusters, target.clusters)
    requires SolverInput(local.Vals(), target.Vals())
    modifies set c | c in local.clusters, set c | c in target.clusters
    ensures out == Solve(old(local.Vals()), old(target.Vals()))
    ensures out.Solved? ==> local.Vals() == LocalView(old(local.Vals())) && target.Vals() == out.target
  {
    var ls, ts := local.clusters, target.clusters;
    ghost var ls0, ts0 := local.Vals(), target.Vals();
    SolveInputs(ls0, ts0);
    var ks, claims := ResolveLocalAll(ls, ls0, LocalView(ls0));
    var ok := ResolveTargetAll(ts, ts0, TargetView(ts0));
    if !ok {
      return Failed(TargetHasFarTargets);
    }
    out := MatchAll(ls, ts, ks, claims, LocalView(ls0), TargetView(ts0));
  }

  /** What the two resolution loops and the matching need of valid input. */
  lemma SolveInputs(ls: seq<ClusterVal>, ts: seq<ClusterVal>)
    requires SolverInput(ls, ts)
    ensures forall k :: 0 <= k < |ls| ==> LocalStep(ls, LocalView(ls), k)
    ensures forall k :: 0 <= k < |ts| ==> TargetStep(ts, TargetView(ts), k)
    ensures InRange(BigIds(ls), |ls|) && Ascending(BigIds(ls)) && IdsArePositions(TargetView(ts))
  {
  }

  /** Everything after nexus resolution (solver.py:72-139). */
  method MatchAll(ls: seq<Cluster>, ts: seq<Cluster>, ks: seq<int>, claims0: map<int, seq<int>>,
                  ghost L: seq<ClusterVal>, ghost T: seq<ClusterVal>)
    returns (out: Outcome)
    requires NoDup(ts) && Apart(ls, ts) && Scheme.ValsOf(ls) == L && Scheme.ValsOf(ts) == T
    requires InRange(ks, |L|) && Ascending(ks) && IdsArePositions(T)
    requires (forall x :: x in claims0 <==> x in ks) && forall x :: x in claims0 ==> claims0[x] == []
    modifies set c | c in ts
    ensures out == Match(L, T, ks)
    ensures out.Solved? ==> Scheme.ValsOf(ts) == out.target
  {
    var undup := UndupKeys(ls, L);
    var ok, claims, skip := MatchTargets(ls, ts, ks, claims0, undup, L, T, WithAddrs(T, DirectAddrs(L, T)));
    if !ok {
      return Failed(BigNotMatched);
    }
    assert T[..|T|] == T;
    AddrsAreVals(ts, T, DirectAddrs(L, T));
    var hits, misses;
    ok, hits, misses := CommitBig(ls, ts, ks, claims, skip, undup, L, T, DirectAddrs(L, T));
    if !ok {
      return Failed(BigUnclaimed);
    }
    AddrsAreVals(ts, T, Commit(L, T, ks, skip, DirectAddrs(L, T)).value.addrs);
    return Solved(Scheme.ValsOf(ts), hits, misses);
  }
}
