/** The values the protection scheme is built from: slot contents, the
    entries of far-target and nexus lists, and a snapshot of one cluster
    (ocfi.py:92-99). */
module Types {
  import opened Seqs

  datatype Option<T> = None | Some(value: T)

  /** Content of an owned slot: a basic block's entry address, or, once the
      scheme is materialized (ocfi.py:43-52), that block's bytes. */
  datatype Slot = At(addr: int) | Code(bytes: seq<bv8>)

  /** One entry of a `fartargets` or `nexus` list. Construction and nexus fill
      only ever store `Ref`; the solver replaces them by the other three. */
  datatype Entry =
    | Ref(cid: int, slot: int)                   // the tuple (cluster_id, slot)
    | Resolved(content: Slot, owner: set<Slot>)  // (targets[slot], frozenset(targets))
    | SelfSentinel(count: int)                   // (-1, len(targets))
    | BigSentinel                                // the bare -1 closing a big nexus

  /** Default `nexus_cap` of a cluster (ocfi.py:93). */
  const DefaultNexusCap: nat := 12

  /** The fields of one `OCFICluster` at one moment. `far` is `None` once an
      opaque view has stripped it (ocfi.py:203). */
  datatype ClusterVal = ClusterVal(
    addr: int,
    id: int,
    nexusCap: nat,
    nexus: seq<Entry>,
    far: Option<seq<Entry>>,
    targets: seq<Slot>)

  predicate AllRefs(s: seq<Entry>) {
    forall e :: e in s ==> e.Ref?
  }

  /** `e` names an existing cluster and an in-range slot of it. */
  predicate RefOk(cs: seq<ClusterVal>, e: Entry) {
    e.Ref? && 0 <= e.cid < |cs| && 0 <= e.slot < |cs[e.cid].targets|
  }

  /** What a reference points at: `clusters[cid].targets[slot]`. */
  function Deref(cs: seq<ClusterVal>, e: Entry): Slot
    requires RefOk(cs, e)
  {
    cs[e.cid].targets[e.slot]
  }

  /** Every cluster has a far-target list and every far-target is a valid
      reference. */
  predicate RefsOk(cs: seq<ClusterVal>) {
    forall k :: 0 <= k < |cs| ==>
      cs[k].far.Some? && forall e :: e in cs[k].far.value ==> RefOk(cs, e)
  }

  /** Cluster ids coincide with positions in the cluster list. */
  predicate IdsArePositions(cs: seq<ClusterVal>) {
    forall k :: 0 <= k < |cs| ==> cs[k].id == k
  }

  /** Slots for a sequence of addresses. */
  function AtSlots(ts: seq<int>): set<Slot> {
    set t | t in ts :: At(t)
  }

  /** The target set cluster `k` protects: the slots it owns together with the
      slots its far-targets point at. */
  function Covered(cs: seq<ClusterVal>, k: int): set<Slot>
    requires 0 <= k < |cs| && cs[k].far.Some?
  {
    Elems(cs[k].targets) + set e | e in cs[k].far.value && RefOk(cs, e) :: Deref(cs, e)
  }

  /** No slot content is owned twice: each owned address has exactly one
      (cluster, slot) position. */
  predicate UniqueOwnership(cs: seq<ClusterVal>) {
    forall i, j, k, l ::
      (0 <= i < |cs| && 0 <= j < |cs[i].targets| && 0 <= k < |cs| && 0 <= l < |cs[k].targets|
       && cs[i].targets[j] == cs[k].targets[l]) ==> i == k && j == l
  }
}
