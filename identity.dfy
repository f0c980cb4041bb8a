/** Structural identity of clusters, `OCFICluster.__eq__` and `__hash__`
    (ocfi.py:176-183), and the attacker's view of a scheme, `generate_opaque`
    (ocfi.py:190-204). */
module Identity {
  import opened Seqs
  import opened Types

  /** `__eq__`: the same nexus entries and the same slot contents as sets,
      and the same lengths; address, id and far-targets play no part. */
  predicate Eq(a: ClusterVal, b: ClusterVal) {
    && Elems(a.nexus) == Elems(b.nexus)
    && Elems(a.targets) == Elems(b.targets)
    && |a.nexus| == |b.nexus|
    && |a.targets| == |b.targets|
  }

  /** The tuple `__hash__` hashes. */
  datatype HashInput = HashInput(nexus: set<Entry>, targets: set<Slot>, nexusLen: nat, targetsLen: nat)

  function HashKey(c: ClusterVal): HashInput {
    HashInput(Elems(c.nexus), Elems(c.targets), |c.nexus|, |c.targets|)
  }

  /** The tuple `__hash__` hashes has the same components `__eq__`
      compares, so two clusters give equal tuples exactly when they are
      `==`. This is about the hashed tuple, not Python's `hash()` value,
      which may collide; a dictionary or set resolves such collisions with
      `__eq__`, so its lookups behave as `==` either way. */
  lemma HashMatchesEq(a: ClusterVal, b: ClusterVal)
    ensures Eq(a, b) <==> HashKey(a) == HashKey(b)
  {
  }

  /** `__eq__` ignores the order of the nexus and of the slots. */
  lemma EqIgnoresOrder(c: ClusterVal, p: seq<int>, q: seq<int>)
    requires IsPerm(p, |c.nexus|) && IsPerm(q, |c.targets|)
    ensures Eq(c, c.(nexus := Permute(c.nexus, p), targets := Permute(c.targets, q)))
  {
    PermuteKeepsElems(c.nexus, p);
    PermuteKeepsElems(c.targets, q);
  }

  /** `in` on a list of clusters: some element is `==`. */
  predicate MemberEq(cs: seq<ClusterVal>, c: ClusterVal) {
    exists i :: 0 <= i < |cs| && Eq(cs[i], c)
  }

  /** What `generate_opaque` leaves of one cluster: address and far-targets
      are hidden (ocfi.py:201-203). */
  function Hidden(c: ClusterVal): (r: ClusterVal)
    ensures r.addr == -1 && r.far == None
    ensures Eq(r, c) && r.id == c.id && r.nexusCap == c.nexusCap
  {
    c.(addr := -1, far := None)
  }

  /** The attacker's view of a scheme: every cluster hidden, in order. */
  function OpaqueView(cs: seq<ClusterVal>): (r: seq<ClusterVal>)
    ensures |r| == |cs|
    ensures forall k :: 0 <= k < |cs| ==>
              r[k].addr == -1 && r[k].far == None && r[k].id == cs[k].id
              && r[k].nexus == cs[k].nexus && r[k].targets == cs[k].targets
  {
    seq(|cs|, k requires 0 <= k < |cs| => Hidden(cs[k]))
  }
}
