/** Sequence helpers shared by the model: permutations as index sequences (what
    `random.shuffle` produces from `list(range(n))`), their inverses, and the
    ascending order of a finite set of integers (`sorted(d.keys())`). */
module Seqs {

  /** The elements of a sequence as a set: Python's `frozenset(list)`. */
  function Elems<T>(s: seq<T>): set<T> {
    set x | x in s
  }

  predicate NoDup<T(==)>(s: seq<T>) {
    forall i, j :: 0 <= i < j < |s| ==> s[i] != s[j]
  }

  /** `p` is an arrangement of `0 .. n-1`: in range, without repetition and
      covering every index (the last conjunct follows from the others by
      counting, and is stated so that no counting argument is needed). */
  predicate IsPerm(p: seq<int>, n: int) {
    && |p| == n
    && (forall i :: 0 <= i < |p| ==> 0 <= p[i] < n)
    && (forall i, j :: 0 <= i < j < |p| ==> p[i] != p[j])
    && (forall k :: 0 <= k < n ==> k in p)
  }

  /** Position of the first occurrence of `x` in `s`: Python's `list.index`. */
  function IndexOf<T(==)>(s: seq<T>, x: T): (i: nat)
    requires x in s
    ensures i < |s| && s[i] == x && x !in s[..i]
  {
    if s[0] == x then 0
    else
      var i := 1 + IndexOf(s[1..], x);
      assert s[..i] == [s[0]] + s[1..][..i - 1];
      i
  }

  /** The inverse arrangement: the `reverse_order` list that the source fills
      with `reverse_order[p[i]] = i`. */
  function Inverse(p: seq<int>): (r: seq<int>)
    requires IsPerm(p, |p|)
    ensures IsPerm(r, |p|)
    ensures forall i :: 0 <= i < |p| ==> r[p[i]] == i
    ensures forall k :: 0 <= k < |p| ==> p[r[k]] == k
  {
    var r := seq(|p|, k requires 0 <= k < |p| => IndexOf(p, k));
    forall i | 0 <= i < |p| ensures r[p[i]] == i {
      var j := IndexOf(p, p[i]);
      assert p[j] == p[i];
    }
    forall k | 0 <= k < |p| ensures k in r {
      assert r[p[k]] == k;
    }
    r
  }

  /** `s` rearranged by `p`: element `i` of the result is `s[p[i]]`
      (the source's `[targets[old] for old in new_order]`). */
  function Permute<T>(s: seq<T>, p: seq<int>): seq<T>
    requires IsPerm(p, |s|)
  {
    seq(|s|, i requires 0 <= i < |s| => s[p[i]])
  }

  /** Dropping the last position `n-1` of a permutation and closing the gap
      its value `p[n-1]` leaves gives a permutation of `0 .. n-2`. */
  function DropLast(p: seq<int>): (p': seq<int>)
    requires |p| > 0 && IsPerm(p, |p|)
    ensures IsPerm(p', |p| - 1)
    ensures forall i :: 0 <= i < |p'| ==> p'[i] == if p[i] > p[|p| - 1] then p[i] - 1 else p[i]
  {
    var n, j := |p|, p[|p| - 1];
    var p' := seq(n - 1, i requires 0 <= i < n - 1 => if p[i] > j then p[i] - 1 else p[i]);
    assert forall i :: 0 <= i < n - 1 ==> p[i] != j;
    forall k | 0 <= k < n - 1 ensures k in p' {
      var kk := if k < j then k else k + 1;
      assert kk in p;
      var i :| 0 <= i < n && p[i] == kk;
      assert i != n - 1;
      assert p'[i] == k;
    }
    p'
  }

  /** Rearranging by a permutation keeps every element with its multiplicity. */
  lemma {:induction false} PermuteIsPermutation<T>(s: seq<T>, p: seq<int>)
    requires IsPerm(p, |s|)
    ensures multiset(Permute(s, p)) == multiset(s)
    decreases |s|
  {
    var n := |s|;
    if n > 0 {
      var j := p[n - 1];
      var s' := s[..j] + s[j + 1..];
      var r := Permute(s, p);
      PermuteDropLast(s, p);
      PermuteIsPermutation(s', DropLast(p));
      assert r == r[..n - 1] + [s[j]];
      assert s == s[..j] + [s[j]] + s[j + 1..];
      calc {
        multiset(r);
        multiset(r[..n - 1]) + multiset([s[j]]);
        multiset(s') + multiset([s[j]]);
        multiset(s[..j]) + multiset(s[j + 1..]) + multiset([s[j]]);
        multiset(s[..j]) + multiset([s[j]]) + multiset(s[j + 1..]);
        multiset(s);
      }
    }
  }

  /** Without its last position, `Permute(s, p)` is `s` without `s[p[n-1]]`
      rearranged by `DropLast(p)`. */
  lemma PermuteDropLast<T>(s: seq<T>, p: seq<int>)
    requires |s| > 0 && IsPerm(p, |s|)
    ensures var j := p[|s| - 1];
            Permute(s, p)[..|s| - 1] == Permute(s[..j] + s[j + 1..], DropLast(p))
  {
    var n, j := |s|, p[|s| - 1];
    var s', p' := s[..j] + s[j + 1..], DropLast(p);
    forall i | 0 <= i < n - 1 ensures Permute(s, p)[i] == s'[p'[i]] {
      assert p[i] != j;
    }
  }

  /** A prefix one longer is the prefix and the next element. */
  lemma TakeSnoc<T>(s: seq<T>, k: int)
    requires 0 <= k < |s|
    ensures s[..k + 1] == s[..k] + [s[k]]
  {
  }

  /** Appending an element not yet present keeps a sequence free of repeats. */
  lemma NoDupSnoc<T>(s: seq<T>, x: T)
    requires NoDup(s) && x !in s
    ensures NoDup(s + [x])
  {
  }

  /** Rearranging keeps a sequence free of repeats. */
  lemma PermuteNoDup<T>(s: seq<T>, p: seq<int>)
    requires NoDup(s) && IsPerm(p, |s|)
    ensures NoDup(Permute(s, p))
  {
  }

  lemma PermuteKeepsElems<T>(s: seq<T>, p: seq<int>)
    requires IsPerm(p, |s|)
    ensures Elems(Permute(s, p)) == Elems(s)
  {
    PermuteIsPermutation(s, p);
    forall x ensures x in Permute(s, p) <==> x in s {
      assert x in Permute(s, p) <==> x in multiset(Permute(s, p));
      assert x in s <==> x in multiset(s);
    }
  }

  /** Rearranging by `p` and then by its inverse gives the sequence back. */
  lemma PermuteInverse<T>(s: seq<T>, p: seq<int>)
    requires IsPerm(p, |s|)
    ensures Permute(Permute(s, p), Inverse(p)) == s
    ensures forall i :: 0 <= i < |s| ==> Permute(s, p)[Inverse(p)[i]] == s[i]
  {
  }

  lemma InverseInverse(p: seq<int>)
    requires IsPerm(p, |p|)
    ensures Inverse(Inverse(p)) == p
  {
    var r := Inverse(p);
    var q := Inverse(r);
    forall k | 0 <= k < |p| ensures q[k] == p[k] {
      assert r[p[k]] == k;
      assert q[r[p[k]]] == p[k];
    }
  }

  /** Dropping the last element keeps a list duplicate-free, and the
      dropped element is not among the rest. */
  lemma NoDupDropLast<T>(done: seq<T>, ts: seq<T>)
    requires NoDup(done + ts) && ts != []
    ensures NoDup(done + ts[..|ts| - 1])
    ensures ts[|ts| - 1] !in done + ts[..|ts| - 1]
    ensures done + ts[..|ts| - 1] + [ts[|ts| - 1]] == done + ts
  {
    var m := |ts| - 1;
    assert ts[..m] + [ts[m]] == ts;
    assert done + ts[..m] == (done + ts)[..|done| + m];
    assert (done + ts)[|done| + m] == ts[m];
    forall x | 0 <= x < |done| + m ensures (done + ts[..m])[x] != ts[m] {
      assert (done + ts[..m])[x] == (done + ts)[x];
    }
  }

  /** Some element of a non-empty set. */
  ghost function Pick<T>(s: set<T>): (y: T)
    requires s != {}
    ensures y in s
  {
    var y :| y in s; y
  }

  lemma {:induction false} MinExists(s: set<int>)
    requires s != {}
    ensures exists m :: m in s && forall x :: x in s ==> m <= x
    decreases |s|
  {
    var y := Pick(s);
    var rest := s - {y};
    assert forall x :: x in s ==> x == y || x in rest;
    if rest == {} {
      assert y in s && forall x :: x in s ==> y <= x;
    } else {
      MinExists(rest);
      var m :| m in rest && forall x :: x in rest ==> m <= x;
      var least := if y < m then y else m;
      assert least in s && forall x :: x in s ==> least <= x;
    }
  }

  function Min(s: set<int>): (m: int)
    requires s != {}
    ensures m in s && forall x :: x in s ==> m <= x
  {
    MinExists(s);
    var m :| m in s && forall x :: x in s ==> m <= x;
    m
  }

  /** The members of `s` in ascending order: `sorted(s)`. */
  function SortedKeys(s: set<int>): (r: seq<int>)
    ensures |r| == |s|
    ensures forall x :: x in r <==> x in s
    decreases |s|
  {
    if s == {} then []
    else
      var m := Min(s);
      [m] + SortedKeys(s - {m})
  }

  predicate Ascending(r: seq<int>) {
    forall i, j :: 0 <= i < j < |r| ==> r[i] < r[j]
  }

  /** Appending an element above every element keeps a list ascending. */
  lemma SnocAscending(t: seq<int>, m: int)
    requires Ascending(t) && forall x :: x in t ==> x < m
    ensures Ascending(t + [m])
  {
    forall i, j | 0 <= i < j < |t + [m]| ensures (t + [m])[i] < (t + [m])[j] {
      assert (t + [m])[i] == t[i] && t[i] in t;
    }
  }

  lemma ConsAscending(m: int, t: seq<int>)
    requires Ascending(t) && forall x :: x in t ==> m < x
    ensures Ascending([m] + t)
  {
    forall i, j | 0 <= i < j < |[m] + t| ensures ([m] + t)[i] < ([m] + t)[j] {
      if i == 0 {
        assert ([m] + t)[j] == t[j - 1] && t[j - 1] in t;
      }
    }
  }

  /** `sorted` really sorts: the keys come out strictly ascending. */
  lemma {:induction false} SortedKeysAscending(s: set<int>)
    ensures Ascending(SortedKeys(s))
    decreases |s|
  {
    if s != {} {
      var m := Min(s);
      var t := SortedKeys(s - {m});
      SortedKeysAscending(s - {m});
      assert forall x :: x in t ==> m < x by {
        forall x | x in t ensures m < x {
          assert x in s - {m};
        }
      }
      ConsAscending(m, t);
    }
  }
}
