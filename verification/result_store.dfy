/** The shared list of discovered clusters and the operations performed on
    it: batch merge without duplicates, clearing the non-permanent (area
    scan) entries, sorting by distance, and deleting one entry. */
module ResultStore {
  import opened Cluster

  type Store = seq<ClusterResult>

  /** Some entry of `s` has the identity of `x`. */
  predicate Contains(s: Store, x: ClusterResult) {
    exists k :: 0 <= k < |s| && Same(s[k], x)
  }

  /** No two entries of `s` have the same identity. */
  predicate NoDup(s: Store) {
    forall i, j :: 0 <= i < j < |s| ==> !Same(s[i], s[j])
  }

  /** The set of identities held by `s`. */
  function Ids(s: Store): (ids: set<Identity>)
    ensures forall x :: Key(x) in ids <==> Contains(s, x)
    ensures |ids| <= |s|
  {
    if |s| == 0 then {}
    else
      var init := s[..|s| - 1];
      assert forall k :: 0 <= k < |init| ==> init[k] == s[k];
      Ids(init) + {Key(s[|s| - 1])}
  }

  /** A result carrying a given identity. */
  function Representative(id: Identity): (x: ClusterResult)
    ensures Key(x) == id
  {
    ClusterResult(id.seed, id.x, id.y, id.z, 0, id.pattern, false)
  }

  /** Stores that hold the same identities have the same identity set. */
  lemma IdsByContains(a: Store, b: Store, c: Store)
    requires forall x :: Contains(a, x) <==> Contains(b, x) || Contains(c, x)
    ensures Ids(a) == Ids(b) + Ids(c)
  {
    forall id
      ensures id in Ids(a) <==> id in Ids(b) + Ids(c)
    {
      var x := Representative(id);
      assert Contains(a, x) <==> Contains(b, x) || Contains(c, x);
    }
  }

  lemma {:induction false} NoDupIdsCount(s: Store)
    requires NoDup(s)
    ensures |Ids(s)| == |s|
  {
    if |s| > 0 {
      var init := s[..|s| - 1];
      assert forall k :: 0 <= k < |init| ==> init[k] == s[k];
      NoDupIdsCount(init);
      assert Key(s[|s| - 1]) !in Ids(init);
    }
  }

  lemma ContainsPrefix(s: Store, t: Store, x: ClusterResult)
    requires |s| <= |t| && t[..|s|] == s
    requires Contains(s, x)
    ensures Contains(t, x)
  {
    var k :| 0 <= k < |s| && Same(s[k], x);
    assert t[k] == s[k];
  }

  // ---------------------------------------------------------------------
  // Batch merge

  /** Append `x` unless an entry with its identity is already present. */
  function Insert(s: Store, x: ClusterResult): (r: Store)
    ensures Contains(r, x)
    ensures Contains(s, x) ==> r == s
    ensures !Contains(s, x) ==> r == s + [x]
  {
    if Contains(s, x) then s
    else
      assert Same((s + [x])[|s|], x);
      s + [x]
  }

  /** Inserting never creates a duplicate. */
  lemma InsertKeepsNoDup(s: Store, x: ClusterResult)
    requires NoDup(s)
    ensures NoDup(Insert(s, x))
  {
  }

  /** Insert every element of `batch`, in order, into `s`. The old entries
      stay in place and at most one entry is added per batch element. */
  function Merge(s: Store, batch: seq<ClusterResult>): (r: Store)
    ensures |s| <= |r| <= |s| + |batch|
    ensures r[..|s|] == s
  {
    if |batch| == 0 then s
    else Insert(Merge(s, batch[..|batch| - 1]), batch[|batch| - 1])
  }

  /** After a merge every batch element is present by identity. */
  lemma {:induction false} MergeHoldsBatch(s: Store, batch: seq<ClusterResult>)
    ensures forall i :: 0 <= i < |batch| ==> Contains(Merge(s, batch), batch[i])
    decreases |batch|
  {
    if |batch| > 0 {
      var init := batch[..|batch| - 1];
      MergeHoldsBatch(s, init);
      var m := Merge(s, init);
      var r := Merge(s, batch);
      forall i | 0 <= i < |init|
        ensures Contains(r, batch[i])
      {
        assert init[i] == batch[i];
        ContainsPrefix(m, r, batch[i]);
      }
    }
  }

  /** Every entry a merge adds comes from the batch. */
  lemma {:induction false} MergeAddsOnlyBatch(s: Store, batch: seq<ClusterResult>)
    ensures forall k :: |s| <= k < |Merge(s, batch)| ==> Merge(s, batch)[k] in batch
    decreases |batch|
  {
    if |batch| > 0 {
      var init := batch[..|batch| - 1];
      MergeAddsOnlyBatch(s, init);
      var m := Merge(s, init);
      var r := Merge(s, batch);
      forall k | |s| <= k < |r|
        ensures r[k] in batch
      {
        if k < |m| {
          assert r[k] == m[k];
          assert m[k] in init;
        } else {
          assert r[k] == batch[|batch| - 1];
        }
      }
    }
  }

  /** Merging into a duplicate-free store leaves it duplicate-free. */
  lemma {:induction false} MergeKeepsNoDup(s: Store, batch: seq<ClusterResult>)
    requires NoDup(s)
    ensures NoDup(Merge(s, batch))
    decreases |batch|
  {
    if |batch| > 0 {
      var init := batch[..|batch| - 1];
      MergeKeepsNoDup(s, init);
      InsertKeepsNoDup(Merge(s, init), batch[|batch| - 1]);
    }
  }

  /** After a merge, an identity is present exactly when it was in the
      store or in the batch. */
  lemma MergeContains(s: Store, batch: seq<ClusterResult>, x: ClusterResult)
    ensures Contains(Merge(s, batch), x) <==> Contains(s, x) || Contains(batch, x)
  {
    var r := Merge(s, batch);
    MergeHoldsBatch(s, batch);
    MergeAddsOnlyBatch(s, batch);
    if Contains(r, x) {
      var k :| 0 <= k < |r| && Same(r[k], x);
      if k < |s| {
        assert r[k] == s[k];
      } else {
        var i :| 0 <= i < |batch| && batch[i] == r[k];
      }
    }
    if Contains(s, x) {
      ContainsPrefix(s, r, x);
    }
    if Contains(batch, x) {
      var i :| 0 <= i < |batch| && Same(batch[i], x);
      assert Contains(r, batch[i]);
      var k :| 0 <= k < |r| && Same(r[k], batch[i]);
    }
  }

  /** The identities after a merge are those of the store and the batch. */
  lemma MergeIds(s: Store, batch: seq<ClusterResult>)
    ensures Ids(Merge(s, batch)) == Ids(s) + Ids(batch)
  {
    forall x
      ensures Contains(Merge(s, batch), x) <==> Contains(s, x) || Contains(batch, x)
    {
      MergeContains(s, batch, x);
    }
    IdsByContains(Merge(s, batch), s, batch);
  }

  /** The store size after merging into a duplicate-free store is the
      number of distinct identities seen, whatever the order and however
      often a result is repeated. */
  lemma MergeCountsDistinctIdentities(s: Store, batch: seq<ClusterResult>)
    requires NoDup(s)
    ensures |Merge(s, batch)| == |Ids(s) + Ids(batch)|
  {
    MergeIds(s, batch);
    MergeKeepsNoDup(s, batch);
    NoDupIdsCount(Merge(s, batch));
  }

  /** Merging a batch whose every element is already present changes
      nothing. */
  lemma {:induction false} MergePresent(s: Store, batch: seq<ClusterResult>)
    requires forall i :: 0 <= i < |batch| ==> Contains(s, batch[i])
    ensures Merge(s, batch) == s
    decreases |batch|
  {
    if |batch| > 0 {
      var init := batch[..|batch| - 1];
      assert forall i :: 0 <= i < |init| ==> init[i] == batch[i];
      MergePresent(s, init);
    }
  }

  /** Merging the same batch a second time changes nothing. */
  lemma MergeIdempotent(s: Store, batch: seq<ClusterResult>)
    ensures Merge(Merge(s, batch), batch) == Merge(s, batch)
  {
    MergeHoldsBatch(s, batch);
    MergePresent(Merge(s, batch), batch);
  }

  /** Two batches merged in either order leave the same identities. */
  lemma MergeOrderIrrelevant(s: Store, a: seq<ClusterResult>, b: seq<ClusterResult>)
    ensures Ids(Merge(Merge(s, a), b)) == Ids(Merge(Merge(s, b), a))
  {
    MergeIds(s, a);
    MergeIds(Merge(s, a), b);
    MergeIds(s, b);
    MergeIds(Merge(s, b), a);
  }

  // ---------------------------------------------------------------------
  // Clear scan results

  /** Remove every non-permanent entry, keeping the others in order. */
  function ClearScan(s: Store): (r: Store)
    ensures |r| <= |s|
    ensures forall x :: x in r <==> x in s && x.isPermanent
    ensures NoDup(s) ==> NoDup(r)
  {
    if |s| == 0 then []
    else
      var init := s[..|s| - 1];
      var last := s[|s| - 1];
      assert s == init + [last];
      var r := ClearScan(init);
      if last.isPermanent then
        assert NoDup(s) ==> !Contains(r, last);
        r + [last]
      else r
  }

  /** Clearing works element by element: the kept entries keep their
      relative order. */
  lemma {:induction false} ClearScanAppend(a: Store, b: Store)
    ensures ClearScan(a + b) == ClearScan(a) + ClearScan(b)
    decreases |b|
  {
    if |b| == 0 {
      assert a + b == a;
    } else {
      var b' := b[..|b| - 1];
      assert (a + b)[..|a + b| - 1] == a + b';
      ClearScanAppend(a, b');
    }
  }

  /** Clearing twice is clearing once. */
  lemma ClearScanIdempotent(s: Store)
    ensures ClearScan(ClearScan(s)) == ClearScan(s)
  {
    ClearScanKeepsPermanent(ClearScan(s));
  }

  /** A store of permanent entries only is left as it is. */
  lemma {:induction false} ClearScanKeepsPermanent(s: Store)
    requires forall x :: x in s ==> x.isPermanent
    ensures ClearScan(s) == s
  {
    if |s| > 0 {
      var init := s[..|s| - 1];
      var last := s[|s| - 1];
      assert s == init + [last];
      assert last in s;
      forall x | x in init
        ensures x.isPermanent
      {
        assert x in s;
      }
      ClearScanKeepsPermanent(init);
    }
  }

  /** Merging a batch of non-permanent (area scan) results and then
      clearing gives what clearing alone gives. */
  lemma ClearScanDropsMergedScanResults(s: Store, batch: seq<ClusterResult>)
    requires forall x :: x in batch ==> !x.isPermanent
    ensures ClearScan(Merge(s, batch)) == ClearScan(s)
  {
    var r := Merge(s, batch);
    var added := r[|s|..];
    assert r == s + added;
    MergeAddsOnlyBatch(s, batch);
    ClearScanAppend(s, added);
    assert forall x :: x in added ==> x in batch;
    ClearScanNoPermanent(added);
  }

  /** A store without permanent entries is cleared completely. */
  lemma ClearScanNoPermanent(s: Store)
    requires forall x :: x in s ==> !x.isPermanent
    ensures ClearScan(s) == []
  {
    var r := ClearScan(s);
    assert forall k :: 0 <= k < |r| ==> r[k] in r;
  }

  /** Identity ignores permanence, so a permanent result whose identity is
      already held by a non-permanent entry is not added, and clearing then
      removes the only entry with that identity. */
  lemma PermanentResultMaskedByScanEntry(x: ClusterResult)
    requires !x.isPermanent
    ensures Merge([x], [x.(isPermanent := true)]) == [x]
    ensures ClearScan(Merge([x], [x.(isPermanent := true)])) == []
  {
    var p := x.(isPermanent := true);
    assert Same([x][0], p);
    assert Contains([x], p);
    assert [x][..0] == [];
    assert ClearScan([x][..0]) == [];
  }

  // ---------------------------------------------------------------------
  // Sort by distance

  /** `a` may precede `b`: ascending or descending by squared distance. */
  predicate InOrder(a: ClusterResult, b: ClusterResult, ascending: bool) {
    if ascending then a.distSq <= b.distSq else a.distSq >= b.distSq
  }

  predicate Sorted(s: Store, ascending: bool) {
    forall i, j :: 0 <= i < j < |s| ==> InOrder(s[i], s[j], ascending)
  }

  /** Insert `x` into the sorted store `s` before the first entry it may
      precede. */
  function InsertSorted(s: Store, x: ClusterResult, ascending: bool): (r: Store)
    requires Sorted(s, ascending)
    ensures multiset(r) == multiset(s) + multiset{x}
    ensures Sorted(r, ascending)
    ensures r[0] == x || (|s| > 0 && r[0] == s[0])
  {
    if |s| == 0 then [x]
    else if InOrder(x, s[0], ascending) then
      SortedCons(x, s, ascending);
      [x] + s
    else
      var rest := InsertSorted(s[1..], x, ascending);
      assert s == [s[0]] + s[1..];
      SortedCons(s[0], rest, ascending);
      [s[0]] + rest
  }

  /** An entry in order with the head of a sorted store may go in front. */
  lemma SortedCons(a: ClusterResult, t: Store, ascending: bool)
    requires Sorted(t, ascending)
    requires |t| > 0 ==> InOrder(a, t[0], ascending)
    ensures Sorted([a] + t, ascending)
  {
    forall i, j | 0 <= i < j < |[a] + t|
      ensures InOrder(([a] + t)[i], ([a] + t)[j], ascending)
    {
      if i == 0 {
        assert InOrder(t[0], t[j - 1], ascending) || j == 1;
      }
    }
  }

  /** The store reordered by squared distance, ascending or descending. The
      result is a permutation of the input and is ordered. */
  function SortByDist(s: Store, ascending: bool): (r: Store)
    ensures multiset(r) == multiset(s)
    ensures Sorted(r, ascending)
  {
    if |s| == 0 then []
    else
      assert s == [s[0]] + s[1..];
      InsertSorted(SortByDist(s[1..], ascending), s[0], ascending)
  }

  /** Stores with the same elements hold the same identities. */
  lemma PermutationIds(a: Store, b: Store)
    requires multiset(a) == multiset(b)
    ensures Ids(a) == Ids(b)
  {
    forall x | Contains(a, x)
      ensures Contains(b, x)
    {
      var k :| 0 <= k < |a| && Same(a[k], x);
      assert a[k] in multiset(b);
      var j :| 0 <= j < |b| && b[j] == a[k];
    }
    forall x | Contains(b, x)
      ensures Contains(a, x)
    {
      var k :| 0 <= k < |b| && Same(b[k], x);
      assert b[k] in multiset(a);
      var j :| 0 <= j < |a| && a[j] == b[k];
    }
    IdsByContains(a, b, []);
  }

  /** Dropping the later of two entries with one identity keeps every
      identity. */
  lemma DropDuplicateContains(s: Store, i: nat, j: nat, x: ClusterResult)
    requires i < j < |s| && Same(s[i], s[j])
    ensures Contains(s, x) <==> Contains(s[..j] + s[j + 1..], x)
  {
    var d := s[..j] + s[j + 1..];
    assert forall k :: 0 <= k < j ==> d[k] == s[k];
    assert forall k :: j < k < |s| ==> d[k - 1] == s[k];
    if Contains(s, x) {
      var k :| 0 <= k < |s| && Same(s[k], x);
      if k == j {
        assert Same(d[i], x);
      } else if k > j {
        assert Same(d[k - 1], x);
      } else {
        assert Same(d[k], x);
      }
    }
    if Contains(d, x) {
      var k :| 0 <= k < |d| && Same(d[k], x);
      if k >= j {
        assert d[k] == s[k + 1];
      }
    }
  }

  /** A store with a duplicate holds fewer identities than entries. */
  lemma DuplicateShrinksIds(s: Store)
    requires !NoDup(s)
    ensures |Ids(s)| < |s|
  {
    var i, j :| 0 <= i < j < |s| && Same(s[i], s[j]);
    var d := s[..j] + s[j + 1..];
    forall x
      ensures Contains(s, x) <==> Contains(d, x) || Contains([], x)
    {
      DropDuplicateContains(s, i, j, x);
    }
    IdsByContains(s, d, []);
  }

  /** Freedom from duplicates depends only on the elements, not their
      order: any permutation of a duplicate-free store is duplicate-free. */
  lemma PermutationKeepsNoDup(a: Store, b: Store)
    requires multiset(a) == multiset(b)
    requires NoDup(a)
    ensures NoDup(b)
  {
    assert |a| == |multiset(a)| == |multiset(b)| == |b|;
    PermutationIds(a, b);
    NoDupIdsCount(a);
    if !NoDup(b) {
      DuplicateShrinksIds(b);
    }
  }

  /** Sorting keeps the store free of duplicates. */
  lemma SortKeepsNoDup(s: Store, ascending: bool)
    requires NoDup(s)
    ensures NoDup(SortByDist(s, ascending))
  {
    PermutationKeepsNoDup(s, SortByDist(s, ascending));
  }

  // ---------------------------------------------------------------------
  // Delete one entry

  /** Remove the entry at index `i`; the entries after it move down by one. */
  function DeleteAt(s: Store, i: nat): (r: Store)
    requires i < |s|
    ensures |r| == |s| - 1
    ensures multiset(r) + multiset{s[i]} == multiset(s)
    ensures forall k :: 0 <= k < i ==> r[k] == s[k]
    ensures forall k :: i <= k < |r| ==> r[k] == s[k + 1]
    ensures NoDup(s) ==> NoDup(r)
  {
    assert s == s[..i] + [s[i]] + s[i + 1..];
    s[..i] + s[i + 1..]
  }

  /** A store is the entries before index `i`, the entry at `i`, and the
      entries after it. */
  lemma SplitAround(s: Store, i: nat)
    requires i < |s|
    ensures s == s[..i] + [s[i]] + s[i + 1..]
  {
    assert s == s[..i] + s[i..];
    assert s[i..] == [s[i]] + s[i + 1..];
  }

  /** Deleting a non-permanent entry never changes the permanent entries. */
  lemma DeleteScanEntryKeepsPermanent(s: Store, i: nat)
    requires i < |s| && !s[i].isPermanent
    ensures ClearScan(DeleteAt(s, i)) == ClearScan(s)
  {
    var before, gone, after := s[..i], [s[i]], s[i + 1..];
    SplitAround(s, i);
    assert DeleteAt(s, i) == before + after;
    ClearScanNoPermanent(gone);
    ClearScanAppend(before + gone, after);
    ClearScanAppend(before, gone);
    ClearScanAppend(before, after);
  }
}
