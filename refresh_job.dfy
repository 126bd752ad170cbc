/**
 * The de-duplicating delta queue of the bug explorer's refresh job: resource
 * deltas are queued once each (CHANGED deltas are ignored) and drained in one
 * go, REMOVED deltas first.
 */
module Refresh {

  /** `IResourceDelta` kinds, with the values the Eclipse resources API gives them. */
  const ADDED: int := 1
  const REMOVED: int := 2
  const CHANGED: int := 4
  const ADDED_PHANTOM: int := 8

  /** A resource delta; equality of values stands for `DeltaInfo.equals`. */
  datatype DeltaInfo = DeltaInfo(resource: string, changeKind: int)

  predicate IsRemoved(d: DeltaInfo)
  {
    d.changeKind == REMOVED
  }

  // ---------------------------------------------------------------- the comparator

  /** `RemovedFirstComparator.compare` as written. */
  function Compare(o1: DeltaInfo, o2: DeltaInfo): (c: int)
    ensures c == 0 <==> o1.changeKind == o2.changeKind
    ensures c == -1 <==> o1.changeKind != o2.changeKind && IsRemoved(o1)
    ensures c == 1 <==> o1.changeKind != o2.changeKind && !IsRemoved(o1)
  {
    if o1.changeKind == o2.changeKind then 0
    else if o1.changeKind == REMOVED then -1
    else 1
  }

  /**
   * As written, the comparator is not antisymmetric: two deltas of different
   * kinds, neither REMOVED, each compare greater than the other, so no order
   * of them is sorted and `Collections.sort` is given a comparator that
   * breaks its contract.
   */
  lemma CompareNotAntisymmetric(r1: string, r2: string)
    ensures var a, p := DeltaInfo(r1, ADDED), DeltaInfo(r2, ADDED_PHANTOM);
      Compare(a, p) == 1 && Compare(p, a) == 1
  {
  }

  /** The comparator the class comment describes: REMOVED deltas first, all others equal. */
  function CompareFixed(o1: DeltaInfo, o2: DeltaInfo): (c: int)
    ensures c == -1 <==> IsRemoved(o1) && !IsRemoved(o2)
    ensures c == 1 <==> !IsRemoved(o1) && IsRemoved(o2)
    ensures c == 0 <==> (IsRemoved(o1) <==> IsRemoved(o2))
  {
    if IsRemoved(o1) == IsRemoved(o2) then 0
    else if IsRemoved(o1) then -1
    else 1
  }

  /** The corrected comparator meets the `Comparator` contract. */
  lemma CompareFixedIsComparator(x: DeltaInfo, y: DeltaInfo, z: DeltaInfo)
    ensures CompareFixed(x, y) == -CompareFixed(y, x)
    ensures CompareFixed(x, y) <= 0 && CompareFixed(y, z) <= 0 ==> CompareFixed(x, z) <= 0
    ensures CompareFixed(x, y) == 0 ==> CompareFixed(x, z) == CompareFixed(y, z)
  {
  }

  /**
   * On deltas drawn from REMOVED and one other kind, the comparator as
   * written and the corrected one agree.
   */
  lemma CompareAgreesOnTwoKinds(o1: DeltaInfo, o2: DeltaInfo, other: int)
    requires other != REMOVED
    requires o1.changeKind in {REMOVED, other} && o2.changeKind in {REMOVED, other}
    ensures Compare(o1, o2) == CompareFixed(o1, o2)
  {
  }

  // ---------------------------------------------------------------- the sort

  /** `t` is sorted by the corrected comparator: no REMOVED delta comes after another kind. */
  predicate SortedByCompareFixed(t: seq<DeltaInfo>)
  {
    forall i, j :: 0 <= i < j < |t| ==> CompareFixed(t[i], t[j]) <= 0
  }

  /** The deltas of `s` that are REMOVED (or, with `removed` false, that are not), in order. */
  function Filter(s: seq<DeltaInfo>, removed: bool): (f: seq<DeltaInfo>)
  {
    if s == [] then []
    else
      var last := s[|s| - 1];
      Filter(s[..|s| - 1], removed) + (if IsRemoved(last) == removed then [last] else [])
  }

  /**
   * `Collections.sort` with the corrected comparator: the sort is stable, so
   * it yields the REMOVED deltas in their queued order, then all the others
   * in their queued order. The result is a permutation of `s`, sorted (no
   * REMOVED delta follows another kind), and keeps the queued order within
   * each group.
   */
  function RemovedFirst(s: seq<DeltaInfo>): (r: seq<DeltaInfo>)
    ensures multiset(r) == multiset(s)
    ensures SortedByCompareFixed(r)
    ensures Filter(r, true) == Filter(s, true) && Filter(r, false) == Filter(s, false)
  {
    FiltersArePermutation(s);
    GroupsSorted(s);
    GroupsStable(s);
    Filter(s, true) + Filter(s, false)
  }

  /** The REMOVED group followed by the other group is sorted. */
  lemma GroupsSorted(s: seq<DeltaInfo>)
    ensures SortedByCompareFixed(Filter(s, true) + Filter(s, false))
  {
    var p, q := Filter(s, true), Filter(s, false);
    FilterKeeps(s, true);
    FilterKeeps(s, false);
    var r := p + q;
    forall i, j | 0 <= i < j < |r| ensures CompareFixed(r[i], r[j]) <= 0 {
      if i < |p| {
        assert r[i] == p[i];
      } else {
        assert r[i] == q[i - |p|] && r[j] == q[j - |p|];
      }
    }
  }

  /** Filtering the two groups put together gives each group back. */
  lemma GroupsStable(s: seq<DeltaInfo>)
    ensures Filter(Filter(s, true) + Filter(s, false), true) == Filter(s, true)
    ensures Filter(Filter(s, true) + Filter(s, false), false) == Filter(s, false)
  {
    var p, q := Filter(s, true), Filter(s, false);
    FilterKeeps(s, true);
    FilterKeeps(s, false);
    FilterOfOneGroup(p, true);
    FilterOfOneGroup(q, false);
    FilterOfAppend(p, q, true);
    FilterOfAppend(p, q, false);
  }

  /** Each group holds only deltas of its kind, all drawn from `s`. */
  lemma {:induction false} FilterKeeps(s: seq<DeltaInfo>, removed: bool)
    ensures forall i :: 0 <= i < |Filter(s, removed)| ==>
      IsRemoved(Filter(s, removed)[i]) == removed && Filter(s, removed)[i] in s
  {
    if s != [] {
      var n := |s| - 1;
      FilterKeeps(s[..n], removed);
      var f := Filter(s[..n], removed);
      forall i | 0 <= i < |Filter(s, removed)|
        ensures IsRemoved(Filter(s, removed)[i]) == removed && Filter(s, removed)[i] in s
      {
        if i < |f| {
          assert Filter(s, removed)[i] == f[i];
          assert f[i] in s[..n];
        } else {
          assert Filter(s, removed)[i] == s[n];
        }
      }
    }
  }

  /** Together the two groups hold exactly the deltas of `s`. */
  lemma {:induction false} FiltersArePermutation(s: seq<DeltaInfo>)
    ensures multiset(Filter(s, true)) + multiset(Filter(s, false)) == multiset(s)
  {
    if s != [] {
      var n := |s| - 1;
      var front, last := s[..n], s[n];
      FiltersArePermutation(front);
      assert s == front + [last];
      assert multiset(s) == multiset(front) + multiset{last};
      if IsRemoved(last) {
        assert Filter(s, true) == Filter(front, true) + [last];
        assert Filter(s, false) == Filter(front, false);
      } else {
        assert Filter(s, true) == Filter(front, true);
        assert Filter(s, false) == Filter(front, false) + [last];
      }
    }
  }

  /** Filtering distributes over concatenation. */
  lemma {:induction false} FilterOfAppend(a: seq<DeltaInfo>, b: seq<DeltaInfo>, removed: bool)
    ensures Filter(a + b, removed) == Filter(a, removed) + Filter(b, removed)
  {
    if b == [] {
      assert a + b == a;
    } else {
      var n := |b| - 1;
      FilterOfAppend(a, b[..n], removed);
      assert (a + b)[..|a + b| - 1] == a + b[..n];
      assert (a + b)[|a + b| - 1] == b[n];
    }
  }

  /** Filtering a sequence that holds only one group keeps all of it or none of it. */
  lemma {:induction false} FilterOfOneGroup(s: seq<DeltaInfo>, removed: bool)
    requires forall i :: 0 <= i < |s| ==> IsRemoved(s[i]) == removed
    ensures Filter(s, removed) == s && Filter(s, !removed) == []
  {
    if s != [] {
      var n := |s| - 1;
      FilterOfOneGroup(s[..n], removed);
      assert s == s[..n] + [s[n]];
    }
  }

  /** A prefix of a sorted list is sorted. */
  lemma SortedDropLast(t: seq<DeltaInfo>)
    requires |t| > 0 && SortedByCompareFixed(t)
    ensures SortedByCompareFixed(t[..|t| - 1])
  {
    var front := t[..|t| - 1];
    forall i, j | 0 <= i < j < |front| ensures CompareFixed(front[i], front[j]) <= 0 {
      assert front[i] == t[i] && front[j] == t[j];
    }
  }

  /** In a sorted list, everything before a REMOVED delta is REMOVED. */
  lemma SortedBeforeRemoved(t: seq<DeltaInfo>)
    requires |t| > 0 && SortedByCompareFixed(t) && IsRemoved(t[|t| - 1])
    ensures Filter(t[..|t| - 1], true) == t[..|t| - 1] && Filter(t[..|t| - 1], false) == []
  {
    var n := |t| - 1;
    var front := t[..n];
    forall i | 0 <= i < n ensures IsRemoved(front[i]) {
      assert CompareFixed(t[i], t[n]) <= 0;
    }
    FilterOfOneGroup(front, true);
  }

  /**
   * A list split into its two groups stays split when one more delta is
   * appended, provided a REMOVED delta only follows REMOVED ones.
   */
  lemma SplitsAfterAppend(front: seq<DeltaInfo>, last: DeltaInfo)
    requires front == Filter(front, true) + Filter(front, false)
    requires IsRemoved(last) ==> Filter(front, false) == []
    ensures front + [last] == Filter(front + [last], true) + Filter(front + [last], false)
  {
    var t := front + [last];
    assert t[..|t| - 1] == front && t[|t| - 1] == last;
    var p, q := Filter(front, true), Filter(front, false);
    if !IsRemoved(last) {
      assert p + (q + [last]) == (p + q) + [last];
    }
  }

  /** A sorted list is its REMOVED deltas followed by the others. */
  lemma {:induction false} SortedSplits(t: seq<DeltaInfo>)
    requires SortedByCompareFixed(t)
    ensures t == Filter(t, true) + Filter(t, false)
  {
    if t != [] {
      var n := |t| - 1;
      SortedDropLast(t);
      SortedSplits(t[..n]);
      if IsRemoved(t[n]) {
        SortedBeforeRemoved(t);
      }
      SplitsAfterAppend(t[..n], t[n]);
      assert t == t[..n] + [t[n]];
    }
  }

  /**
   * `RemovedFirst` is the only result a stable sort by the corrected
   * comparator can give: any list sorted by it that keeps the queued order
   * within each group is `RemovedFirst` of the queue.
   */
  lemma StableSortIsRemovedFirst(s: seq<DeltaInfo>, t: seq<DeltaInfo>)
    requires SortedByCompareFixed(t)
    requires Filter(t, true) == Filter(s, true) && Filter(t, false) == Filter(s, false)
    ensures t == RemovedFirst(s)
  {
    SortedSplits(t);
  }

  // ---------------------------------------------------------------- the job

  /** The pending-delta list of `RefreshJob`, the only state the queue needs. */
  class RefreshJob {
    var deltaToRefresh: seq<DeltaInfo>

    /** The list holds no CHANGED delta and no delta twice. */
    ghost predicate Valid()
      reads this
    {
      && (forall i :: 0 <= i < |deltaToRefresh| ==> deltaToRefresh[i].changeKind != CHANGED)
      && (forall i, j :: 0 <= i < j < |deltaToRefresh| ==> deltaToRefresh[i] != deltaToRefresh[j])
    }

    constructor ()
      ensures Valid() && deltaToRefresh == []
    {
      deltaToRefresh := [];
    }

    /**
     * `addToQueue`: CHANGED deltas and deltas already pending are refused;
     * anything else is appended.
     */
    method AddToQueue(res: DeltaInfo) returns (added: bool)
      requires Valid()
      modifies this
      ensures Valid()
      ensures added <==> res.changeKind != CHANGED && res !in old(deltaToRefresh)
      ensures deltaToRefresh == if added then old(deltaToRefresh) + [res] else old(deltaToRefresh)
    {
      if res.changeKind == CHANGED {
        return false;
      }
      if res !in deltaToRefresh {
        deltaToRefresh := deltaToRefresh + [res];
        return true;
      }
      return false;
    }

    /**
     * `fetchDeltas`: empties the pending list and returns its deltas sorted
     * REMOVED first (an empty list gives an empty result).
     */
    method FetchDeltas() returns (deltas: seq<DeltaInfo>)
      requires Valid()
      modifies this
      ensures Valid() && deltaToRefresh == []
      ensures deltas == RemovedFirst(old(deltaToRefresh))
      ensures multiset(deltas) == multiset(old(deltaToRefresh))
      ensures SortedByCompareFixed(deltas)
    {
      deltas := [];
      if deltaToRefresh == [] {
        assert RemovedFirst([]) == [];
        return;
      }
      deltas := deltas + deltaToRefresh;
      assert deltas == old(deltaToRefresh);
      deltaToRefresh := [];
      deltas := RemovedFirst(deltas);
    }
  }
}
