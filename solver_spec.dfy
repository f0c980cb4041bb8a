/** The matching pass `solve_for_addrs` (solver.py:29-139) as functions of
    the two schemes' cluster values: nexus resolution, duplicate detection,
    the direct match, and the tentative-match / skip discipline for big
    clusters. The local scheme is the attacker's own randomization, whose
    clusters it can tie to branches; the target scheme is the opaque one
    under attack. */
module SolverSpec {
  import opened Seqs
  import opened Types
  import opened Identity

  /** The nexus length that marks a target cluster as a possible part of a
      big local cluster; the source writes the literal 12 (solver.py:87). */
  const CandidateLen: nat := 12

  // ---------------------------------------------------------------------
  // Nexus resolution (solver.py:38-68)

  /** A local cluster is big when it has at least `nexus_cap` far-targets,
      so that its nexus could not hold them all (solver.py:40). */
  predicate IsBig(c: ClusterVal)
    requires c.far.Some?
  {
    |c.far.value| >= c.nexusCap
  }

  /** `ci, loc = entry` unpacks, and unless `ci` is the cluster's own id,
      `clusters[ci].targets[loc]` exists. */
  predicate EntryOk(cs: seq<ClusterVal>, c: ClusterVal, e: Entry) {
    e.Ref? && (e.cid == c.id || RefOk(cs, e))
  }

  /** What the first loop needs of a local cluster: a far-target list; if
      the cluster is big, far-targets that can be resolved, and otherwise
      nexus entries that can be resolved. */
  predicate LocalClusterOk(cs: seq<ClusterVal>, c: ClusterVal) {
    && c.far.Some?
    && (IsBig(c) ==> forall e :: e in c.far.value ==> RefOk(cs, e))
    && (!IsBig(c) ==> forall e :: e in c.nexus ==> EntryOk(cs, c, e))
  }

  predicate LocalOk(cs: seq<ClusterVal>) {
    forall k :: 0 <= k < |cs| ==> LocalClusterOk(cs, cs[k])
  }

  /** Every nexus entry of the target scheme can be resolved. */
  predicate TargetOk(ts: seq<ClusterVal>) {
    forall k :: 0 <= k < |ts| ==> forall e :: e in ts[k].nexus ==> EntryOk(ts, ts[k], e)
  }

  /** `assert not clus.fartargets`: every target cluster has no far-target
      list or an empty one (solver.py:60). */
  predicate Opaque(ts: seq<ClusterVal>) {
    forall k :: 0 <= k < |ts| ==> NoFar(ts[k])
  }

  predicate NoFar(t: ClusterVal) {
    t.far == None || t.far == Some([])
  }

  /** A resolved reference: the content it points at, together with the set
      of contents of the cluster that owns it (solver.py:46, 57, 68). */
  function Resolve(cs: seq<ClusterVal>, e: Entry): (r: Entry)
    requires RefOk(cs, e)
    ensures r.Resolved? && r.content in r.owner && r.owner == Elems(cs[e.cid].targets)
  {
    Resolved(Deref(cs, e), Elems(cs[e.cid].targets))
  }

  /** One nexus entry after resolution: a reference into the cluster itself
      becomes `(-1, len(targets))` (solver.py:53-57, 64-68). */
  function ResolveEntry(cs: seq<ClusterVal>, c: ClusterVal, e: Entry): (r: Entry)
    requires EntryOk(cs, c, e)
    ensures r.SelfSentinel? <==> e.cid == c.id
    ensures r.SelfSentinel? ==> r.count == |c.targets|
    ensures r.Resolved? ==> RefOk(cs, e) && r.content == Deref(cs, e) && r.content in r.owner
  {
    if e.cid == c.id then SelfSentinel(|c.targets|) else Resolve(cs, e)
  }

  function ResolveFar(cs: seq<ClusterVal>, es: seq<Entry>): (r: seq<Entry>)
    requires forall e :: e in es ==> RefOk(cs, e)
    ensures |r| == |es|
    ensures forall i :: 0 <= i < |es| ==> r[i] == Resolve(cs, es[i])
  {
    seq(|es|, i requires 0 <= i < |es| => Resolve(cs, es[i]))
  }

  function ResolveNexus(cs: seq<ClusterVal>, c: ClusterVal, es: seq<Entry>): (r: seq<Entry>)
    requires forall e :: e in es ==> EntryOk(cs, c, e)
    ensures |r| == |es|
    ensures forall i :: 0 <= i < |es| ==> r[i] == ResolveEntry(cs, c, es[i])
  {
    seq(|es|, i requires 0 <= i < |es| => ResolveEntry(cs, c, es[i]))
  }

  /** A local cluster after the first loop: a big cluster's far-targets are
      resolved and closed by `(-1, len(targets))`, and its nexus becomes them
      followed by `-1`; any other cluster has its nexus resolved in place
      (solver.py:39-57). */
  function ResolvedLocal(cs: seq<ClusterVal>, c: ClusterVal): (r: ClusterVal)
    requires LocalClusterOk(cs, c)
    ensures r.addr == c.addr && r.id == c.id && r.nexusCap == c.nexusCap && r.targets == c.targets
    ensures IsBig(c) ==>
              && r.far == Some(ResolveFar(cs, c.far.value) + [SelfSentinel(|c.targets|)])
              && r.nexus == r.far.value + [BigSentinel]
              && |r.nexus| == |c.far.value| + 2
    ensures !IsBig(c) ==> r.far == c.far && r.nexus == ResolveNexus(cs, c, c.nexus)
  {
    if IsBig(c) then
      var far := ResolveFar(cs, c.far.value) + [SelfSentinel(|c.targets|)];
      c.(far := Some(far), nexus := far + [BigSentinel])
    else
      c.(nexus := ResolveNexus(cs, c, c.nexus))
  }

  /** The local scheme after the first loop. */
  function LocalView(cs: seq<ClusterVal>): (r: seq<ClusterVal>)
    requires LocalOk(cs)
    ensures |r| == |cs|
    ensures forall k :: 0 <= k < |cs| ==> r[k] == ResolvedLocal(cs, cs[k])
  {
    seq(|cs|, k requires 0 <= k < |cs| => ResolvedLocal(cs, cs[k]))
  }

  /** The target scheme after the second loop: only the nexus changes. */
  function TargetView(ts: seq<ClusterVal>): (r: seq<ClusterVal>)
    requires TargetOk(ts)
    ensures |r| == |ts|
    ensures forall k :: 0 <= k < |ts| ==> r[k] == ts[k].(nexus := ResolveNexus(ts, ts[k], ts[k].nexus))
  {
    seq(|ts|, k requires 0 <= k < |ts| => ts[k].(nexus := ResolveNexus(ts, ts[k], ts[k].nexus)))
  }

  // ---------------------------------------------------------------------
  // Duplicates (solver.py:70-79)

  /** How many clusters of `cs` are `==` to `c`. */
  function CountEq(cs: seq<ClusterVal>, c: ClusterVal): (n: nat)
    ensures n <= |cs|
    ensures n > 0 <==> MemberEq(cs, c)
  {
    if cs == [] then 0
    else
      var init := cs[..|cs| - 1];
      MemberEqSnoc(init, cs[|cs| - 1], c);
      assert cs == init + [cs[|cs| - 1]];
      CountEq(init, c) + if Eq(cs[|cs| - 1], c) then 1 else 0
  }

  lemma MemberEqSnoc(cs: seq<ClusterVal>, x: ClusterVal, c: ClusterVal)
    ensures MemberEq(cs + [x], c) <==> MemberEq(cs, c) || Eq(x, c)
  {
    if MemberEq(cs + [x], c) {
      var i :| 0 <= i < |cs| + 1 && Eq((cs + [x])[i], c);
      if i < |cs| {
        assert Eq(cs[i], c);
      }
    }
    if MemberEq(cs, c) {
      var i :| 0 <= i < |cs| && Eq(cs[i], c);
      assert (cs + [x])[i] == cs[i];
    }
    if Eq(x, c) {
      assert (cs + [x])[|cs|] == x;
    }
  }

  /** A cluster is unduplicated when it is `==` to exactly one local cluster:
      the clusters `unduplicated_real_clusters` holds. */
  predicate Unduplicated(cs: seq<ClusterVal>, c: ClusterVal) {
    CountEq(cs, c) == 1
  }

  /** How many clusters of `cs` have the hash key `h`: what the dictionary
      `unduplicated_real_clusters_dict` tells apart. */
  function CountKey(cs: seq<ClusterVal>, h: HashInput): nat {
    if cs == [] then 0
    else CountKey(cs[..|cs| - 1], h) + if HashKey(cs[|cs| - 1]) == h then 1 else 0
  }

  /** Counting by hash key counts the `==` clusters: dictionary lookups by a
      cluster see exactly its `==` class. */
  lemma {:induction false} CountKeyIsCountEq(cs: seq<ClusterVal>, c: ClusterVal)
    ensures CountKey(cs, HashKey(c)) == CountEq(cs, c)
    decreases |cs|
  {
    if cs != [] {
      CountKeyIsCountEq(cs[..|cs| - 1], c);
      HashMatchesEq(cs[|cs| - 1], c);
    }
  }

  /** `ocfilocal.clusters.index(clus)`: the first position `==` to `c`. */
  function FirstEq(cs: seq<ClusterVal>, c: ClusterVal): (i: nat)
    requires MemberEq(cs, c)
    ensures i < |cs| && Eq(cs[i], c)
    ensures forall j :: 0 <= j < i ==> !Eq(cs[j], c)
  {
    if Eq(cs[0], c) then 0
    else
      assert MemberEq(cs[1..], c) by {
        var i :| 0 <= i < |cs| && Eq(cs[i], c);
        assert cs[1..][i - 1] == cs[i];
      }
      1 + FirstEq(cs[1..], c)
  }

  /** A cluster is unduplicated exactly when some local cluster is `==` to it
      and no local cluster other than the first such one is: so the two
      asserts of the direct match (solver.py:118, 121) always hold. */
  lemma {:induction false} UniqueEq(cs: seq<ClusterVal>, c: ClusterVal)
    ensures Unduplicated(cs, c) <==>
              MemberEq(cs, c) && forall j :: 0 <= j < |cs| && Eq(cs[j], c) ==> j == FirstEq(cs, c)
    decreases |cs|
  {
    if cs != [] {
      var init, x := cs[..|cs| - 1], cs[|cs| - 1];
      UniqueEq(init, c);
      assert cs == init + [x];
      if Eq(x, c) {
        if MemberEq(init, c) {
          var i := FirstEq(init, c);
          assert cs[i] == init[i];
          assert CountEq(cs, c) >= 2;
          assert FirstEq(cs, c) <= i;
        }
      } else if MemberEq(init, c) {
        var i := FirstEq(init, c);
        assert cs[i] == init[i];
        assert FirstEq(cs, c) == i by {
          var f := FirstEq(cs, c);
          assert f < |init| && init[f] == cs[f];
          assert f <= i;
        }
        forall j | 0 <= j < |cs| && Eq(cs[j], c) ensures j < |init| && init[j] == cs[j] {
        }
      } else {
        assert !MemberEq(cs, c) by {
          MemberEqSnoc(init, x, c);
        }
      }
    }
  }

  // ---------------------------------------------------------------------
  // Big clusters (solver.py:38-48, 82-112, 125-139)

  /** Positions of the big local clusters in list order: the keys of
      `big_nexus_clusters` in insertion order, as ids equal positions. */
  function BigIds(cs: seq<ClusterVal>): (ks: seq<int>)
    requires forall k :: 0 <= k < |cs| ==> cs[k].far.Some?
    ensures forall i :: 0 <= i < |ks| ==> 0 <= ks[i] < |cs| && IsBig(cs[ks[i]])
    ensures forall k :: 0 <= k < |cs| && IsBig(cs[k]) ==> k in ks
    ensures forall i, j :: 0 <= i < j < |ks| ==> ks[i] < ks[j]
  {
    if cs == [] then []
    else
      var init := cs[..|cs| - 1];
      var ks := BigIds(init);
      assert forall k :: 0 <= k < |init| ==> init[k] == cs[k];
      if IsBig(cs[|cs| - 1]) then ks + [|cs| - 1] else ks
  }

  /** `bnclus` may be the big cluster `t` is part of: the same target set,
      and every nexus entry of `t` among `bnclus.nexus` (solver.py:93-98). */
  predicate Fits(bn: ClusterVal, t: ClusterVal) {
    && Elems(bn.targets) == Elems(t.targets)
    && forall e :: e in t.nexus ==> e in bn.nexus
  }

  predicate InRange(ks: seq<int>, n: int) {
    forall i :: 0 <= i < |ks| ==> 0 <= ks[i] < n
  }

  /** How many of the big clusters `ks` `t` fits. */
  function FitCount(L: seq<ClusterVal>, ks: seq<int>, t: ClusterVal): (n: nat)
    requires InRange(ks, |L|)
    ensures n <= |ks|
    ensures n > 0 <==> exists i :: 0 <= i < |ks| && Fits(L[ks[i]], t)
  {
    if ks == [] then 0
    else
      var init := ks[..|ks| - 1];
      var n := FitCount(L, init, t) + if Fits(L[ks[|ks| - 1]], t) then 1 else 0;
      assert (exists i :: 0 <= i < |ks| && Fits(L[ks[i]], t)) ==> n > 0 by {
        if exists i :: 0 <= i < |ks| && Fits(L[ks[i]], t) {
          var i :| 0 <= i < |ks| && Fits(L[ks[i]], t);
          if i < |init| {
            assert init[i] == ks[i];
          }
        }
      }
      assert n > 0 ==> exists i :: 0 <= i < |ks| && Fits(L[ks[i]], t) by {
        if FitCount(L, init, t) > 0 {
          var i :| 0 <= i < |init| && Fits(L[init[i]], t);
          assert ks[i] == init[i];
        }
      }
      n
  }

  /** A target cluster that is `==` to no local cluster and whose nexus is
      full may be part of a big local cluster (solver.py:87). */
  predicate Candidate(L: seq<ClusterVal>, t: ClusterVal) {
    !MemberEq(L, t) && |t.nexus| == CandidateLen
  }

  /** `big_nexus_clusters[k]` after the second loop: the ids, in target
      order, of the candidates that fit `L[k]` (solver.py:106). */
  function Claims(L: seq<ClusterVal>, T: seq<ClusterVal>, k: int): seq<int>
    requires 0 <= k < |L|
  {
    if T == [] then []
    else
      var t := T[|T| - 1];
      Claims(L, T[..|T| - 1], k) + if Candidate(L, t) && Fits(L[k], t) then [t.id] else []
  }

  /** The claims on `L[k]` are exactly the ids of the candidates that fit
      it. */
  lemma {:induction false} ClaimsExactly(L: seq<ClusterVal>, T: seq<ClusterVal>, k: int)
    requires 0 <= k < |L| && IdsArePositions(T)
    ensures forall x :: x in Claims(L, T, k) <==> 0 <= x < |T| && Candidate(L, T[x]) && Fits(L[k], T[x])
    decreases |T|
  {
    if T != [] {
      var init := T[..|T| - 1];
      InitIdsArePositions(T);
      ClaimsExactly(L, init, k);
      forall x ensures x in Claims(L, init, k) <==> 0 <= x < |init| && Candidate(L, T[x]) && Fits(L[k], T[x]) {
        if 0 <= x < |init| {
          assert init[x] == T[x];
        }
      }
    }
  }

  /** Each candidate claims `L[k]` at most once, in target order. */
  lemma {:induction false} ClaimsAscending(L: seq<ClusterVal>, T: seq<ClusterVal>, k: int)
    requires 0 <= k < |L| && IdsArePositions(T)
    ensures Ascending(Claims(L, T, k))
    decreases |T|
  {
    if T != [] {
      var init := T[..|T| - 1];
      InitIdsArePositions(T);
      ClaimsAscending(L, init, k);
      ClaimsExactly(L, init, k);
      var c0 := Claims(L, init, k);
      var t := T[|T| - 1];
      if Candidate(L, t) && Fits(L[k], t) {
        assert Claims(L, T, k) == c0 + [t.id];
        SnocAscending(c0, t.id);
      } else {
        assert Claims(L, T, k) == c0;
      }
    }
  }

  lemma InitIdsArePositions(T: seq<ClusterVal>)
    requires T != [] && IdsArePositions(T)
    ensures IdsArePositions(T[..|T| - 1])
  {
    var init := T[..|T| - 1];
    forall j | 0 <= j < |init| ensures init[j].id == j {
      assert init[j] == T[j];
    }
  }

  lemma ClaimsAreCandidates(L: seq<ClusterVal>, T: seq<ClusterVal>, k: int, x: int)
    requires 0 <= k < |L| && IdsArePositions(T) && x in Claims(L, T, k)
    ensures 0 <= x < |T| && Candidate(L, T[x]) && Fits(L[k], T[x])
  {
    ClaimsExactly(L, T, k);
  }

  /** `big_skip` after the second loop: the ids of the candidates that fit
      two or more big clusters (solver.py:99-111). */
  function Skipped(L: seq<ClusterVal>, ks: seq<int>, T: seq<ClusterVal>): set<int>
    requires InRange(ks, |L|)
  {
    if T == [] then {}
    else
      var t := T[|T| - 1];
      Skipped(L, ks, T[..|T| - 1]) + if Candidate(L, t) && FitCount(L, ks, t) >= 2 then {t.id} else {}
  }

  /** `big_skip` holds exactly the ids of the candidates that fit two or
      more big clusters. */
  lemma {:induction false} SkippedExactly(L: seq<ClusterVal>, ks: seq<int>, T: seq<ClusterVal>)
    requires InRange(ks, |L|) && IdsArePositions(T)
    ensures forall x :: x in Skipped(L, ks, T) <==> 0 <= x < |T| && Candidate(L, T[x]) && FitCount(L, ks, T[x]) >= 2
    decreases |T|
  {
    if T != [] {
      var init := T[..|T| - 1];
      InitIdsArePositions(T);
      SkippedExactly(L, ks, init);
      forall x ensures x in Skipped(L, ks, init) <==> 0 <= x < |init| && Candidate(L, T[x]) && FitCount(L, ks, T[x]) >= 2 {
        if 0 <= x < |init| {
          assert init[x] == T[x];
        }
      }
    }
  }

  /** Some candidate fits no big cluster: `assert matched` fails (solver.py:109). */
  predicate Stuck(L: seq<ClusterVal>, ks: seq<int>, T: seq<ClusterVal>)
    requires InRange(ks, |L|)
  {
    exists j :: 0 <= j < |T| && Candidate(L, T[j]) && FitCount(L, ks, T[j]) == 0
  }

  /** The address the direct match leaves on a target cluster: a
      non-candidate `==` to exactly one local cluster takes that cluster's
      address; any other keeps its own (solver.py:114-122). */
  function DirectAddr(L: seq<ClusterVal>, t: ClusterVal): int {
    if !Candidate(L, t) && Unduplicated(L, t) then L[FirstEq(L, t)].addr else t.addr
  }

  function Addrs(T: seq<ClusterVal>): (r: seq<int>)
    ensures |r| == |T| && forall j :: 0 <= j < |T| ==> r[j] == T[j].addr
  {
    seq(|T|, j requires 0 <= j < |T| => T[j].addr)
  }

  function DirectAddrs(L: seq<ClusterVal>, T: seq<ClusterVal>): (r: seq<int>)
    ensures |r| == |T| && forall j :: 0 <= j < |T| ==> r[j] == DirectAddr(L, T[j])
  {
    seq(|T|, j requires 0 <= j < |T| => DirectAddr(L, T[j]))
  }

  function WithAddrs(T: seq<ClusterVal>, a: seq<int>): (r: seq<ClusterVal>)
    requires |a| == |T|
    ensures |r| == |T| && forall j :: 0 <= j < |T| ==> r[j] == T[j].(addr := a[j])
  {
    seq(|T|, j requires 0 <= j < |T| => T[j].(addr := a[j]))
  }

  /** The counters and target addresses of the last loop. */
  datatype Tally = Tally(addrs: seq<int>, hits: nat, misses: nat)

  /** One iteration of the last loop, for the big cluster `L[k]`
      (solver.py:129-137): an unduplicated big cluster claimed by exactly
      one candidate, which no other big cluster claims, gives that
      candidate its address and counts a hit; any other unduplicated big
      cluster counts a miss; `None` when an unduplicated big cluster is
      claimed by no candidate (`assert l`). */
  function CommitStep(L: seq<ClusterVal>, T: seq<ClusterVal>, k: int, skip: set<int>, r: Option<Tally>)
    : (r': Option<Tally>)
    requires 0 <= k < |L| && IdsArePositions(T)
    requires r.Some? ==> |r.value.addrs| == |T|
    ensures r'.Some? ==> |r'.value.addrs| == |T|
  {
    match r
    case None => None
    case Some(prev) =>
      if !Unduplicated(L, L[k]) then Some(prev)
      else
        var l := Claims(L, T, k);
        if l == [] then None
        else if |l| != 1 || l[0] in skip then Some(prev.(misses := prev.misses + 1))
        else
          ClaimsAreCandidates(L, T, k, l[0]);
          Some(Tally(prev.addrs[l[0] := L[k].addr], prev.hits + 1, prev.misses))
  }

  /** The last loop over `ks` (solver.py:125-139), from the addresses
      `addrs` the direct match left. */
  function Commit(L: seq<ClusterVal>, T: seq<ClusterVal>, ks: seq<int>, skip: set<int>, addrs: seq<int>)
    : (r: Option<Tally>)
    requires InRange(ks, |L|) && IdsArePositions(T) && |addrs| == |T|
    ensures r.Some? ==> |r.value.addrs| == |T|
  {
    if ks == [] then Some(Tally(addrs, 0, 0))
    else CommitStep(L, T, ks[|ks| - 1], skip, Commit(L, T, ks[..|ks| - 1], skip, addrs))
  }

  /** What the source demands of the two schemes; ids equal positions, as in
      every scheme that `OCFI` builds or shuffles. */
  predicate SolverInput(ls: seq<ClusterVal>, ts: seq<ClusterVal>) {
    LocalOk(ls) && TargetOk(ts) && IdsArePositions(ls) && IdsArePositions(ts)
  }

  /** Why `solve_for_addrs` stops at an assertion. */
  datatype Failure =
    | TargetHasFarTargets  // solver.py:60
    | BigNotMatched        // solver.py:109
    | BigUnclaimed         // solver.py:131

  datatype Outcome =
    | Solved(target: seq<ClusterVal>, hits: nat, misses: nat)
    | Failed(why: Failure)

  /** `solve_for_addrs(local, target)`: the target clusters afterwards, and
      the hit and miss counts it prints. */
  function Solve(ls: seq<ClusterVal>, ts: seq<ClusterVal>): Outcome
    requires SolverInput(ls, ts)
  {
    if !Opaque(ts) then Failed(TargetHasFarTargets)
    else Match(LocalView(ls), TargetView(ts), BigIds(ls))
  }

  /** What `solve_for_addrs` does once both schemes are resolved: `L` and
      `T` are the resolved local and target clusters, `ks` the positions of
      the big local clusters (solver.py:72-139). */
  function Match(L: seq<ClusterVal>, T: seq<ClusterVal>, ks: seq<int>): Outcome
    requires InRange(ks, |L|) && IdsArePositions(T)
  {
    if Stuck(L, ks, T) then Failed(BigNotMatched)
    else
      match Commit(L, T, ks, Skipped(L, ks, T), DirectAddrs(L, T))
      case None => Failed(BigUnclaimed)
      case Some(tally) => Solved(WithAddrs(T, tally.addrs), tally.hits, tally.misses)
  }

  // ---------------------------------------------------------------------
  // What the last loop writes and counts (solver.py:125-139)

  /** How many of the big clusters `ks` are unduplicated. */
  function CountUndup(L: seq<ClusterVal>, ks: seq<int>): nat
    requires InRange(ks, |L|)
  {
    if ks == [] then 0
    else CountUndup(L, ks[..|ks| - 1]) + if Unduplicated(L, L[ks[|ks| - 1]]) then 1 else 0
  }

  /** The big cluster `L[k]` counts a hit: it is unduplicated and claimed
      by exactly one candidate, which is not in `big_skip`
      (solver.py:129-137). */
  predicate Hit(L: seq<ClusterVal>, T: seq<ClusterVal>, k: int, skip: set<int>)
    requires 0 <= k < |L|
  {
    var l := Claims(L, T, k);
    Unduplicated(L, L[k]) && |l| == 1 && l[0] !in skip
  }

  /** How many of the big clusters `ks` count a hit. */
  function CountHits(L: seq<ClusterVal>, T: seq<ClusterVal>, ks: seq<int>, skip: set<int>): nat
    requires InRange(ks, |L|)
  {
    if ks == [] then 0
    else CountHits(L, T, ks[..|ks| - 1], skip) + if Hit(L, T, ks[|ks| - 1], skip) then 1 else 0
  }

  /** Every unduplicated big cluster counts once: a hit when it is claimed
      by exactly one candidate outside `big_skip`, a miss otherwise. */
  lemma {:induction false} CommitCounts(L: seq<ClusterVal>, T: seq<ClusterVal>, ks: seq<int>, skip: set<int>,
                                        addrs: seq<int>)
    requires InRange(ks, |L|) && IdsArePositions(T) && |addrs| == |T|
    ensures var r := Commit(L, T, ks, skip, addrs);
            r.Some? ==> && r.value.hits + r.value.misses == CountUndup(L, ks)
                        && r.value.hits == CountHits(L, T, ks, skip)
                        && r.value.misses == CountUndup(L, ks) - CountHits(L, T, ks, skip)
    decreases |ks|
  {
    if ks != [] {
      var init := ks[..|ks| - 1];
      assert InRange(init, |L|);
      CommitCounts(L, T, init, skip, addrs);
    }
  }

  /** The address `a` is the one big cluster `L[ks[i]]` gave to target `j`:
      that cluster is unduplicated, `j` alone claims it, and `j` is not in
      `big_skip`. */
  ghost predicate Written(L: seq<ClusterVal>, T: seq<ClusterVal>, ks: seq<int>, skip: set<int>, j: int, a: int)
    requires InRange(ks, |L|)
  {
    exists i :: 0 <= i < |ks| && Unduplicated(L, L[ks[i]]) && Claims(L, T, ks[i]) == [j] && j !in skip
                && a == L[ks[i]].addr
  }

  /** The last loop changes a target's address only by the big-cluster
      path. */
  lemma {:induction false} CommitWrites(L: seq<ClusterVal>, T: seq<ClusterVal>, ks: seq<int>, skip: set<int>,
                                        addrs: seq<int>)
    requires InRange(ks, |L|) && IdsArePositions(T) && |addrs| == |T|
    ensures var r := Commit(L, T, ks, skip, addrs);
            r.Some? ==> forall j :: 0 <= j < |T| ==>
              r.value.addrs[j] == addrs[j] || Written(L, T, ks, skip, j, r.value.addrs[j])
    decreases |ks|
  {
    if ks != [] {
      var m := |ks| - 1;
      var init := ks[..m];
      assert InRange(init, |L|);
      CommitWrites(L, T, init, skip, addrs);
      var prev := Commit(L, T, init, skip, addrs);
      var r := Commit(L, T, ks, skip, addrs);
      if r.Some? {
        forall j | 0 <= j < |T|
          ensures r.value.addrs[j] == addrs[j] || Written(L, T, ks, skip, j, r.value.addrs[j])
        {
          var a := r.value.addrs[j];
          if a != prev.value.addrs[j] {
            assert Claims(L, T, ks[m]) == [j] && j !in skip && a == L[ks[m]].addr;
          } else if a != addrs[j] {
            assert Written(L, T, init, skip, j, a);
            var i :| 0 <= i < |init| && Unduplicated(L, L[init[i]]) && Claims(L, T, init[i]) == [j] && j !in skip
                      && a == L[init[i]].addr;
            assert ks[i] == init[i];
          }
        }
      }
    }
  }

  /** No candidate outside `skip` is claimed by two of the big clusters
      `ks`. */
  predicate SoleClaims(L: seq<ClusterVal>, T: seq<ClusterVal>, ks: seq<int>, skip: set<int>)
    requires InRange(ks, |L|)
  {
    forall i, i', j ::
      (0 <= i < |ks| && 0 <= i' < |ks| && j in Claims(L, T, ks[i]) && j in Claims(L, T, ks[i']) && j !in skip)
      ==> i == i'
  }

  /** Two different big clusters that `t` fits make it fit two or more. */
  lemma {:induction false} FitCountTwo(L: seq<ClusterVal>, ks: seq<int>, t: ClusterVal, i: int, i': int)
    requires InRange(ks, |L|) && 0 <= i < |ks| && 0 <= i' < |ks|
    requires Fits(L[ks[i]], t) && Fits(L[ks[i']], t)
    ensures i == i' || FitCount(L, ks, t) >= 2
    decreases |ks|
  {
    var m := |ks| - 1;
    var init := ks[..m];
    assert InRange(init, |L|);
    if i < m && i' < m {
      assert init[i] == ks[i] && init[i'] == ks[i'];
      FitCountTwo(L, init, t, i, i');
    } else if i != i' {
      var o := if i == m then i' else i;
      assert init[o] == ks[o];
    }
  }

  /** With `big_skip` as the second loop leaves it, no candidate outside it
      is claimed twice. */
  lemma SkippedMeansSoleClaims(L: seq<ClusterVal>, T: seq<ClusterVal>, ks: seq<int>)
    requires InRange(ks, |L|) && IdsArePositions(T)
    ensures SoleClaims(L, T, ks, Skipped(L, ks, T))
  {
    SkippedExactly(L, ks, T);
    forall i, i', j | 0 <= i < |ks| && 0 <= i' < |ks| && j in Claims(L, T, ks[i]) && j in Claims(L, T, ks[i'])
                      && j !in Skipped(L, ks, T)
      ensures i == i'
    {
      ClaimsAreCandidates(L, T, ks[i], j);
      ClaimsAreCandidates(L, T, ks[i'], j);
      FitCountTwo(L, ks, T[j], i, i');
    }
  }

  /** One step of the last loop leaves alone the address of a target that
      the big cluster `L[k]` does not claim. */
  lemma CommitStepKeeps(L: seq<ClusterVal>, T: seq<ClusterVal>, k: int, skip: set<int>, prev: Tally, j: int)
    requires 0 <= k < |L| && IdsArePositions(T) && |prev.addrs| == |T| && 0 <= j < |T|
    requires j !in Claims(L, T, k)
    ensures var r := CommitStep(L, T, k, skip, Some(prev));
            r.Some? ==> r.value.addrs[j] == prev.addrs[j]
  {
    var l := Claims(L, T, k);
    if Unduplicated(L, L[k]) && |l| == 1 && l[0] !in skip {
      assert l[0] in l;
    }
  }

  /** One step of the last loop gives the candidate that alone claims the
      big cluster `L[k]`, when that is a hit, the cluster's address. */
  lemma CommitStepWrites(L: seq<ClusterVal>, T: seq<ClusterVal>, k: int, skip: set<int>, prev: Tally)
    requires 0 <= k < |L| && IdsArePositions(T) && |prev.addrs| == |T| && Hit(L, T, k, skip)
    ensures var j, r := Claims(L, T, k)[0], CommitStep(L, T, k, skip, Some(prev));
            0 <= j < |T| && r.Some? && r.value.addrs[j] == L[k].addr
  {
    var l := Claims(L, T, k);
    assert l[0] in l;
    ClaimsAreCandidates(L, T, k, l[0]);
  }

  /** Conversely to `CommitWrites`: when no candidate outside `skip` is
      claimed twice, every hit leaves the big cluster's address on the
      candidate that alone claims it. */
  lemma {:induction false} CommitDelivers(L: seq<ClusterVal>, T: seq<ClusterVal>, ks: seq<int>, skip: set<int>,
                                          addrs: seq<int>)
    requires InRange(ks, |L|) && IdsArePositions(T) && |addrs| == |T| && SoleClaims(L, T, ks, skip)
    ensures var r := Commit(L, T, ks, skip, addrs);
            r.Some? ==> forall i :: 0 <= i < |ks| && Hit(L, T, ks[i], skip) ==>
              var j := Claims(L, T, ks[i])[0]; 0 <= j < |T| && r.value.addrs[j] == L[ks[i]].addr
    decreases |ks|
  {
    if ks != [] {
      var m := |ks| - 1;
      var init := ks[..m];
      assert InRange(init, |L|);
      assert SoleClaims(L, T, init, skip) by {
        assert forall i :: 0 <= i < m ==> init[i] == ks[i];
      }
      CommitDelivers(L, T, init, skip, addrs);
      var prev := Commit(L, T, init, skip, addrs);
      var r := CommitStep(L, T, ks[m], skip, prev);
      assert r == Commit(L, T, ks, skip, addrs);
      if r.Some? {
        forall i | 0 <= i < |ks| && Hit(L, T, ks[i], skip)
          ensures var j := Claims(L, T, ks[i])[0]; 0 <= j < |T| && r.value.addrs[j] == L[ks[i]].addr
        {
          var j := Claims(L, T, ks[i])[0];
          if i < m {
            assert init[i] == ks[i];
            assert j in Claims(L, T, ks[i]);
            ClaimsAreCandidates(L, T, ks[i], j);
            assert j !in Claims(L, T, ks[m]);
            CommitStepKeeps(L, T, ks[m], skip, prev.value, j);
          } else {
            CommitStepWrites(L, T, ks[m], skip, prev.value);
          }
        }
      }
    }
  }

  /** The last loop counts, as a hit, each unduplicated big cluster that
      exactly one candidate outside `big_skip` claims, and every other
      unduplicated big cluster as a miss. */
  lemma MatchCounts(L: seq<ClusterVal>, T: seq<ClusterVal>, ks: seq<int>)
    requires InRange(ks, |L|) && IdsArePositions(T)
    ensures var m, skip := Match(L, T, ks), Skipped(L, ks, T);
            m.Solved? ==>
              && m.hits == CountHits(L, T, ks, skip)
              && m.misses == CountUndup(L, ks) - CountHits(L, T, ks, skip)
  {
    CommitCounts(L, T, ks, Skipped(L, ks, T), DirectAddrs(L, T));
  }

  /** Each hit gives the candidate that alone claims the big cluster that
      cluster's address, whatever the direct match left there. */
  lemma MatchDelivers(L: seq<ClusterVal>, T: seq<ClusterVal>, ks: seq<int>)
    requires InRange(ks, |L|) && IdsArePositions(T)
    ensures var m, skip := Match(L, T, ks), Skipped(L, ks, T);
            m.Solved? ==> forall i :: 0 <= i < |ks| && Hit(L, T, ks[i], skip) ==>
              var j := Claims(L, T, ks[i])[0]; 0 <= j < |T| && m.target[j].addr == L[ks[i]].addr
  {
    var skip, a0 := Skipped(L, ks, T), DirectAddrs(L, T);
    var c := Commit(L, T, ks, skip, a0);
    var m := Match(L, T, ks);
    if m.Solved? {
      assert c.Some? && m.target == WithAddrs(T, c.value.addrs);
      SkippedMeansSoleClaims(L, T, ks);
      CommitDelivers(L, T, ks, skip, a0);
    }
  }

  /** A solved target cluster differs from the resolved one only in its
      address, which is what the direct match gave it, or else the address
      of the one big cluster it alone claims and is the only one to fit. */
  lemma MatchAddrs(L: seq<ClusterVal>, T: seq<ClusterVal>, ks: seq<int>)
    requires InRange(ks, |L|) && IdsArePositions(T)
    ensures var m := Match(L, T, ks);
            m.Solved? ==> |m.target| == |T| && forall j :: 0 <= j < |T| ==>
              && m.target[j] == T[j].(addr := m.target[j].addr)
              && (|| m.target[j].addr == DirectAddr(L, T[j])
                  || (&& Candidate(L, T[j]) && FitCount(L, ks, T[j]) == 1
                      && Written(L, T, ks, Skipped(L, ks, T), j, m.target[j].addr)))
  {
    var skip, a0 := Skipped(L, ks, T), DirectAddrs(L, T);
    var m := Match(L, T, ks);
    if m.Solved? {
      CommitWrites(L, T, ks, skip, a0);
      SkippedExactly(L, ks, T);
      var r := Commit(L, T, ks, skip, a0).value;
      forall j | 0 <= j < |T| && m.target[j].addr != DirectAddr(L, T[j])
        ensures Candidate(L, T[j]) && FitCount(L, ks, T[j]) == 1
      {
        assert Written(L, T, ks, skip, j, r.addrs[j]);
        var i :| 0 <= i < |ks| && Claims(L, T, ks[i]) == [j] && j !in skip;
        ClaimsAreCandidates(L, T, ks[i], j);
      }
    }
  }

  /** The whole pass: it stops at `assert not clus.fartargets` exactly when
      the target scheme has far-targets; when it solves, every target
      cluster keeps all but its nexus and address, and every unduplicated
      big local cluster counts once, as a hit or a miss. */
  lemma SolveOutcome(ls: seq<ClusterVal>, ts: seq<ClusterVal>)
    requires SolverInput(ls, ts)
    ensures var o := Solve(ls, ts);
            && (o == Failed(TargetHasFarTargets) <==> !Opaque(ts))
            && (o.Solved? ==>
                  && |o.target| == |ts|
                  && (forall j :: 0 <= j < |ts| ==> o.target[j].(addr := ts[j].addr, nexus := ts[j].nexus) == ts[j])
                  && o.hits + o.misses == CountUndup(LocalView(ls), BigIds(ls)))
  {
    if Opaque(ts) {
      var L, T, ks := LocalView(ls), TargetView(ts), BigIds(ls);
      assert IdsArePositions(T);
      MatchAddrs(L, T, ks);
      CommitCounts(L, T, ks, Skipped(L, ks, T), DirectAddrs(L, T));
    }
  }
}
