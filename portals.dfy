/** Nexus fill, `OCFICluster.fill_nexus` and `maybe_add_to_nexus`
    (ocfi.py:108-140), as functions of a cluster snapshot. Because
    `closeness_key` returns nothing, far-targets are ordered by plain tuple
    order `(cid, slot)`; the last `nexus_cap` of them are kept, and a short
    nexus is topped up with the cluster's own trailing slots. */
module Portals {
  import opened Seqs
  import opened Types

  // ---------------------------------------------------------------------
  // Ordering far-targets

  /** Python's tuple comparison on `(cid, slot)`. */
  predicate RefLe(a: Entry, b: Entry)
    requires a.Ref? && b.Ref?
  {
    a.cid < b.cid || (a.cid == b.cid && a.slot <= b.slot)
  }

  predicate SortedRefs(s: seq<Entry>) {
    AllRefs(s) && forall i, j :: 0 <= i < j < |s| ==> RefLe(s[i], s[j])
  }

  /** Insertion into a list of far-targets: before the first entry that
      `x` does not exceed. */
  function Insert(x: Entry, s: seq<Entry>): (r: seq<Entry>)
    requires x.Ref? && AllRefs(s)
    ensures |r| == |s| + 1 && AllRefs(r)
  {
    if s == [] then [x]
    else if RefLe(x, s[0]) then [x] + s
    else [s[0]] + Insert(x, s[1..])
  }

  /** Inserting into a sorted list keeps it sorted and adds exactly `x`. */
  lemma {:induction false} InsertSorted(x: Entry, s: seq<Entry>)
    requires x.Ref? && SortedRefs(s)
    ensures SortedRefs(Insert(x, s)) && multiset(Insert(x, s)) == multiset(s) + multiset{x}
    decreases |s|
  {
    if s != [] {
      assert s == [s[0]] + s[1..];
      if RefLe(x, s[0]) {
        ConsSorted(x, s);
      } else {
        var t := s[1..];
        InsertSorted(x, t);
        assert Insert(x, t)[0] == x || (t != [] && Insert(x, t)[0] == t[0]);
        ConsSorted(s[0], Insert(x, t));
      }
    }
  }

  lemma ConsSorted(a: Entry, t: seq<Entry>)
    requires a.Ref? && SortedRefs(t) && t != [] && RefLe(a, t[0])
    ensures SortedRefs([a] + t)
  {
    var r := [a] + t;
    forall i, j | 0 <= i < j < |r| ensures RefLe(r[i], r[j]) {
      if i == 0 && j > 1 {
        assert RefLe(t[0], t[j - 1]);
      }
    }
  }

  /** `sorted(fartargets)`, as insertion sort. */
  function SortRefs(s: seq<Entry>): (r: seq<Entry>)
    requires AllRefs(s)
    ensures |r| == |s| && AllRefs(r)
  {
    if s == [] then []
    else
      assert forall e :: e in s[..|s| - 1] ==> e in s;
      Insert(s[|s| - 1], SortRefs(s[..|s| - 1]))
  }

  /** `SortRefs` sorts: ascending tuple order, and a rearrangement of its
      input. */
  lemma {:induction false} SortRefsSorts(s: seq<Entry>)
    requires AllRefs(s)
    ensures SortedRefs(SortRefs(s)) && multiset(SortRefs(s)) == multiset(s)
    decreases |s|
  {
    if s != [] {
      var init, last := s[..|s| - 1], s[|s| - 1];
      assert forall e :: e in init ==> e in s;
      SortRefsSorts(init);
      SortRefsStep(s, init, last, SortRefs(init));
    }
  }

  lemma SortRefsStep(s: seq<Entry>, init: seq<Entry>, last: Entry, t: seq<Entry>)
    requires AllRefs(s) && s != [] && init == s[..|s| - 1] && last == s[|s| - 1]
    requires AllRefs(init) && t == SortRefs(init) && SortedRefs(t) && multiset(t) == multiset(init)
    ensures SortedRefs(SortRefs(s)) && multiset(SortRefs(s)) == multiset(s)
  {
    assert s == init + [last];
    assert multiset(s) == multiset(init) + multiset{last};
    assert SortRefs(s) == Insert(last, t);
    InsertSorted(last, t);
  }

  /** A sorted rearrangement is unique: `SortRefs` is the only order
      `sorted` can produce, stable or not. */
  lemma {:induction false} SortedUnique(s: seq<Entry>, t: seq<Entry>)
    requires SortedRefs(s) && SortedRefs(t) && multiset(s) == multiset(t)
    ensures s == t
    decreases |s|
  {
    assert |t| == |multiset(t)| == |multiset(s)| == |s|;
    if s != [] {
      HeadLeast(s, t);
      HeadLeast(t, s);
      assert s[0] in s && t[0] in t;
      assert s[0] == t[0];
      SortedTails(s, t);
      SortedUnique(s[1..], t[1..]);
      assert s == [s[0]] + s[1..] && t == [t[0]] + t[1..];
    }
  }

  /** Dropping an equal head from two sorted rearrangements leaves two
      sorted rearrangements. */
  lemma SortedTails(s: seq<Entry>, t: seq<Entry>)
    requires SortedRefs(s) && SortedRefs(t) && multiset(s) == multiset(t)
    requires s != [] && t != [] && s[0] == t[0]
    ensures SortedRefs(s[1..]) && SortedRefs(t[1..]) && multiset(s[1..]) == multiset(t[1..])
  {
    assert s == [s[0]] + s[1..] && t == [t[0]] + t[1..];
    calc {
      multiset(s[1..]);
      multiset(s) - multiset{s[0]};
      multiset(t) - multiset{t[0]};
      multiset(t[1..]);
    }
  }

  lemma HeadLeast(s: seq<Entry>, t: seq<Entry>)
    requires SortedRefs(s) && SortedRefs(t) && multiset(s) == multiset(t) && s != [] && t != []
    ensures RefLe(s[0], t[0])
  {
    assert t[0] in multiset(s);
    var l :| 0 <= l < |s| && s[l] == t[0];
  }

  // ---------------------------------------------------------------------
  // Appending under a cap

  /** `maybe_add_to_nexus`: append unless the nexus is exactly full. */
  function MaybeAdd(nexus: seq<Entry>, cap: nat, e: Entry): seq<Entry> {
    if |nexus| == cap then nexus else nexus + [e]
  }

  /** `maybe_add_to_nexus` for each of `es`, in order. */
  function AddEach(nexus: seq<Entry>, cap: nat, es: seq<Entry>): seq<Entry> {
    if es == [] then nexus
    else MaybeAdd(AddEach(nexus, cap, es[..|es| - 1]), cap, es[|es| - 1])
  }

  function MinOf(a: int, b: int): int {
    if a <= b then a else b
  }

  /** Starting at or below the cap, appending entries one by one keeps the
      longest prefix of them that fits. */
  lemma {:induction false} AddEachFits(nexus: seq<Entry>, cap: nat, es: seq<Entry>)
    requires |nexus| <= cap
    ensures AddEach(nexus, cap, es) == nexus + es[..MinOf(cap - |nexus|, |es|)]
    decreases |es|
  {
    if es != [] {
      var init := es[..|es| - 1];
      AddEachFits(nexus, cap, init);
      assert init[..MinOf(cap - |nexus|, |init|)] == es[..MinOf(cap - |nexus|, |init|)];
      if |es| <= cap - |nexus| {
        assert es[..|es|] == es[..|es| - 1] + [es[|es| - 1]];
      }
    }
  }

  /** `fartargs[-cap:]`: the last `cap` entries, and, since `-0` is `0`, all
      of them when the cap is zero. */
  function TakeLast(s: seq<Entry>, cap: nat): seq<Entry> {
    if cap == 0 || cap >= |s| then s else s[|s| - cap..]
  }

  /** `(id, closeid)` for `closeid` in `range(lo, hi)`, skipping negative ones. */
  function SelfRefs(id: int, lo: int, hi: int): (r: seq<Entry>)
    ensures forall k :: 0 <= k < |r| ==> r[k] == Ref(id, if lo < 0 then k else lo + k)
    ensures |r| == if hi <= lo then 0 else if lo < 0 then (if hi < 0 then 0 else hi) else hi - lo
    decreases hi - lo
  {
    if hi <= lo then []
    else if lo < 0 then SelfRefs(id, lo + 1, hi)
    else [Ref(id, lo)] + SelfRefs(id, lo + 1, hi)
  }

  /** One more round of the `closeid` loop. */
  lemma SelfRefsSnoc(id: int, lo: int, hi: int)
    requires lo <= hi
    ensures SelfRefs(id, lo, hi + 1) == SelfRefs(id, lo, hi) + (if hi < 0 then [] else [Ref(id, hi)])
  {
  }

  /** One more round of the `maybe_add_to_nexus` loop. */
  lemma AddEachSnoc(nexus: seq<Entry>, cap: nat, es: seq<Entry>, e: Entry)
    ensures AddEach(nexus, cap, es + [e]) == MaybeAdd(AddEach(nexus, cap, es), cap, e)
  {
    assert (es + [e])[..|es|] == es;
  }

  // ---------------------------------------------------------------------
  // fill_nexus

  /** The far-target part of the nexus: after appending the last `cap`
      far-targets in tuple order. */
  function FarFill(c: ClusterVal): seq<Entry>
    requires c.far.Some? && AllRefs(c.far.value)
  {
    AddEach(c.nexus, c.nexusCap, TakeLast(SortRefs(c.far.value), c.nexusCap))
  }

  /** The nexus `fill_nexus` leaves behind. */
  function Filled(c: ClusterVal): seq<Entry>
    requires c.far.Some? && AllRefs(c.far.value)
  {
    var f, cap, t := |c.far.value|, c.nexusCap, |c.targets|;
    var n := FarFill(c);
    if f < cap then AddEach(n, cap, SelfRefs(c.id, t - (cap - f), t)) else n
  }

  /** Entries from position `m` on reference the last own slots of cluster
      `id`, which has `t` slots, in ascending order and in range. */
  predicate SelfTail(r: seq<Entry>, m: int, id: int, t: int) {
    forall j :: 0 <= m <= j < |r| ==> r[j] == Ref(id, t - (|r| - j)) && 0 <= t - (|r| - j) < t
  }

  /** From an empty nexus, the far-target part is the `min(cap, F)` greatest
      far-targets in tuple order. */
  lemma FarFillFromEmpty(c: ClusterVal)
    requires c.far.Some? && AllRefs(c.far.value) && c.nexus == []
    ensures var f := |c.far.value|;
            var m := MinOf(c.nexusCap, f);
            FarFill(c) == SortRefs(c.far.value)[f - m..]
  {
    var f, cap := |c.far.value|, c.nexusCap;
    var sorted := SortRefs(c.far.value);
    var m := MinOf(cap, f);
    var taken := TakeLast(sorted, cap);
    AddEachFits([], cap, taken);
    if cap == 0 {
      assert FarFill(c) == [];
    }
  }

  /** What is filled in from an empty nexus: `min(cap, F + T)` entries; first
      the far-target part (`FarFillFromEmpty`), then references to the
      cluster's own last slots, every one in range. */
  lemma FillFromEmpty(c: ClusterVal)
    requires c.far.Some? && AllRefs(c.far.value) && c.nexus == []
    ensures var r, f, t := Filled(c), |c.far.value|, |c.targets|;
            var m := MinOf(c.nexusCap, f);
            && |r| == MinOf(c.nexusCap, f + t)
            && r[..m] == FarFill(c)
            && SelfTail(r, m, c.id, t)
  {
    FarFillSize(c);
    if |c.far.value| < c.nexusCap {
      SelfTopUp(c.id, FarFill(c), c.nexusCap, |c.targets|);
    } else {
      FillFromEmptyFull(c);
    }
  }

  /** With at least `cap` far-targets the nexus is full of them. */
  lemma FillFromEmptyFull(c: ClusterVal)
    requires c.far.Some? && AllRefs(c.far.value) && c.nexus == []
    requires |c.far.value| >= c.nexusCap && |FarFill(c)| == c.nexusCap
    ensures Filled(c) == FarFill(c) && FarFill(c)[..c.nexusCap] == FarFill(c)
  {
  }

  lemma FarFillSize(c: ClusterVal)
    requires c.far.Some? && AllRefs(c.far.value) && c.nexus == []
    ensures |FarFill(c)| == MinOf(c.nexusCap, |c.far.value|)
  {
    FarFillFromEmpty(c);
  }

  /** Topping up a nexus of `F < cap` far-targets with `range(T - (cap - F), T)`
      appends references to the last `min(cap - F, T)` own slots. */
  lemma SelfTopUp(id: int, n: seq<Entry>, cap: nat, t: nat)
    requires |n| < cap
    ensures var r := AddEach(n, cap, SelfRefs(id, t - (cap - |n|), t));
            && |r| == MinOf(cap, |n| + t)
            && r[..|n|] == n
            && SelfTail(r, |n|, id, t)
  {
    var selfs := SelfRefs(id, t - (cap - |n|), t);
    AddEachFits(n, cap, selfs);
    assert |selfs| <= cap - |n|;
    var r := n + selfs;
    assert AddEach(n, cap, selfs) == r;
    assert r[..|n|] == n;
  }

  /** `maybe_add_to_nexus` never grows a nexus past its cap, and only appends. */
  lemma FillBounded(c: ClusterVal)
    requires c.far.Some? && AllRefs(c.far.value) && |c.nexus| <= c.nexusCap
    ensures |c.nexus| <= |Filled(c)| <= c.nexusCap
    ensures Filled(c)[..|c.nexus|] == c.nexus
  {
    var f, cap, t := |c.far.value|, c.nexusCap, |c.targets|;
    var taken := TakeLast(SortRefs(c.far.value), cap);
    AddEachFits(c.nexus, cap, taken);
    var n := FarFill(c);
    if f < cap {
      var selfs := SelfRefs(c.id, t - (cap - f), t);
      AddEachFits(n, cap, selfs);
      assert Filled(c) == n + selfs[..MinOf(cap - |n|, |selfs|)];
    }
  }

  // ---------------------------------------------------------------------
  // The ordering the docstring asks for

  /** The key `closeness` computes (ocfi.py:121-128): distance in cluster
      ids, then a slot tie-break favouring high slots of lower clusters. A
      smaller key is closer. */
  function Closeness(selfId: int, e: Entry): (k: (int, int))
    requires e.Ref?
    ensures k.0 >= 0
    ensures k.0 == 0 <==> e.cid == selfId
  {
    var idDiff := if selfId >= e.cid then selfId - e.cid else e.cid - selfId;
    (idDiff, if e.cid < selfId then -e.slot else e.slot)
  }

  /** Tuple order, as written, keeps the closest of the lower clusters
      rather than the furthest: cluster 3 with room for one entry and
      far-targets into clusters 0 and 2 keeps the one into cluster 2, whose
      `closeness` key is the smaller. */
  lemma FillKeepsNearerTarget()
    ensures var c := ClusterVal(10, 3, 1, [], Some([Ref(0, 0), Ref(2, 0)]), []);
            && Filled(c) == [Ref(2, 0)]
            && Closeness(3, Ref(2, 0)).0 < Closeness(3, Ref(0, 0)).0
  {
    var far := [Ref(0, 0), Ref(2, 0)];
    var c := ClusterVal(10, 3, 1, [], Some(far), []);
    assert SortedRefs(far);
    SortRefsSorts(far);
    SortedUnique(SortRefs(far), far);
    FillFromEmpty(c);
  }

  /** `make_portals`: `fill_nexus` on every cluster (ocfi.py:12-15). */
  function AllFilled(cs: seq<ClusterVal>): (r: seq<ClusterVal>)
    requires forall k :: 0 <= k < |cs| ==> cs[k].far.Some? && AllRefs(cs[k].far.value)
    ensures |r| == |cs|
  {
    seq(|cs|, k requires 0 <= k < |cs| => cs[k].(nexus := Filled(cs[k])))
  }
}
