/** Properties of the worker loops: what a finished or interrupted area
    scan holds, stopping and resuming it, and what a seed sweep holds.
    The loop lemmas are stated for any finder; the scan lemmas apply them
    to the finders of the two modes. */
module ScanProperties {
  import opened Cluster
  import opened Classifier
  import opened ResultStore
  import opened Scheduler

  // ---------------------------------------------------------------------
  // Area loop

  /** A claim that yields row `rx` merges what the row finds and carries
      on from the next claim with one claim fewer. */
  lemma AreaLoopStep(rows: Finder, radius: int, store: Store, cursor: nat, budget: nat, n: nat, rx: int)
    requires n == budget - 1
    requires Claim(radius, cursor) == Some(rx)
    ensures AreaLoop(rows, radius, store, cursor, budget)
         == AreaLoop(rows, radius, MergeFound(store, rows(rx)), cursor + 1, n)
  {
  }

  /** Once the counter is past the last row, the loop adds nothing and
      stops after one claim. */
  lemma AfterLastRow(rows: Finder, radius: int, store: Store, cursor: nat, budget: nat)
    requires cursor >= Width(radius)
    ensures AreaLoop(rows, radius, store, cursor, budget)
         == (store, if budget == 0 then cursor else cursor + 1)
  {
    assert Claim(radius, cursor).None?;
  }

  /** The loop only appends: the entries stored before it stay where they
      are. */
  lemma {:induction false} AreaLoopExtends(rows: Finder, radius: int, store: Store, cursor: nat, budget: nat)
    ensures var out := AreaLoop(rows, radius, store, cursor, budget).0;
      |store| <= |out| && out[..|store|] == store
    decreases budget
  {
    if budget > 0 && Claim(radius, cursor).Some? {
      var n: nat := budget - 1;
      var rx := Claim(radius, cursor).value;
      var next := MergeFound(store, rows(rx));
      AreaLoopStep(rows, radius, store, cursor, budget, n, rx);
      AreaLoopExtends(rows, radius, next, cursor + 1, n);
      var out := AreaLoop(rows, radius, next, cursor + 1, n).0;
      assert out[..|store|] == out[..|next|][..|store|];
    }
  }

  /** Everything found in a row claimed during the loop ends up in the
      store. */
  lemma {:induction false} AreaLoopComplete(rows: Finder, radius: int, store: Store, cursor: nat,
                                            budget: nat, rx: int, x: ClusterResult)
    requires -radius <= rx <= radius
    requires cursor <= rx + radius < cursor + budget
    requires x in rows(rx)
    ensures Contains(AreaLoop(rows, radius, store, cursor, budget).0, x)
    decreases budget, 1
  {
    var n: nat := budget - 1;
    var row := Claim(radius, cursor).value;
    if rx + radius == cursor {
      FirstClaimComplete(rows, radius, store, cursor, budget, n, row, x);
    } else {
      LaterClaimComplete(rows, radius, store, cursor, budget, n, row, rx, x);
    }
  }

  /** Everything found in a row claimed after the first ends up in the
      store. */
  lemma {:induction false} LaterClaimComplete(rows: Finder, radius: int, store: Store, cursor: nat,
                                              budget: nat, n: nat, row: int, rx: int, x: ClusterResult)
    requires n == budget - 1
    requires Claim(radius, cursor) == Some(row)
    requires -radius <= rx <= radius
    requires cursor < rx + radius < cursor + budget
    requires x in rows(rx)
    ensures Contains(AreaLoop(rows, radius, store, cursor, budget).0, x)
    decreases budget, 0
  {
    AreaLoopStep(rows, radius, store, cursor, budget, n, row);
    AreaLoopComplete(rows, radius, MergeFound(store, rows(row)), cursor + 1, n, rx, x);
  }

  /** Everything found in the first claimed row ends up in the store. */
  lemma FirstClaimComplete(rows: Finder, radius: int, store: Store, cursor: nat, budget: nat, n: nat,
                           rx: int, x: ClusterResult)
    requires n == budget - 1
    requires Claim(radius, cursor) == Some(rx)
    requires x in rows(rx)
    ensures Contains(AreaLoop(rows, radius, store, cursor, budget).0, x)
  {
    var next := MergeFound(store, rows(rx));
    MergeFoundContents(store, rows(rx));
    AreaLoopExtends(rows, radius, next, cursor + 1, n);
    ContainsPrefix(next, AreaLoop(rows, radius, next, cursor + 1, n).0, x);
    ContainsAfterClaim(rows, radius, store, cursor, budget, n, rx, x);
  }

  /** A cluster held after the rest of the loop is held after the whole
      loop. */
  lemma ContainsAfterClaim(rows: Finder, radius: int, store: Store, cursor: nat, budget: nat, n: nat,
                           rx: int, x: ClusterResult)
    requires n == budget - 1
    requires Claim(radius, cursor) == Some(rx)
    requires Contains(AreaLoop(rows, radius, MergeFound(store, rows(rx)), cursor + 1, n).0, x)
    ensures Contains(AreaLoop(rows, radius, store, cursor, budget).0, x)
  {
    AreaLoopStep(rows, radius, store, cursor, budget, n, rx);
  }

  /** Every entry the loop adds was found in a row claimed during the
      loop. */
  lemma {:induction false} AreaLoopSound(rows: Finder, radius: int, store: Store, cursor: nat,
                                         budget: nat, i: nat)
    requires |store| <= i < |AreaLoop(rows, radius, store, cursor, budget).0|
    ensures var out := AreaLoop(rows, radius, store, cursor, budget);
      exists rx :: -radius <= rx <= radius && cursor <= rx + radius < out.1 && out.0[i] in rows(rx)
    decreases budget
  {
    var n: nat := budget - 1;
    var row := Claim(radius, cursor).value;
    var next := MergeFound(store, rows(row));
    AreaLoopStep(rows, radius, store, cursor, budget, n, row);
    var rest := AreaLoop(rows, radius, next, cursor + 1, n);
    if i < |next| {
      AreaLoopExtends(rows, radius, next, cursor + 1, n);
      assert rest.0[i] == next[i];
      MergeFoundContents(store, rows(row));
      assert row + radius == cursor;
    } else {
      AreaLoopSound(rows, radius, next, cursor + 1, n, i);
    }
  }

  /** The loop never creates a duplicate. */
  lemma {:induction false} AreaLoopKeepsNoDup(rows: Finder, radius: int, store: Store, cursor: nat,
                                              budget: nat)
    requires NoDup(store)
    ensures NoDup(AreaLoop(rows, radius, store, cursor, budget).0)
    decreases budget
  {
    if budget > 0 && cursor < Width(radius) {
      var n: nat := budget - 1;
      var row := Claim(radius, cursor).value;
      AreaLoopStep(rows, radius, store, cursor, budget, n, row);
      MergeKeepsNoDup(store, rows(row));
      AreaLoopKeepsNoDup(rows, radius, MergeFound(store, rows(row)), cursor + 1, n);
    } else if cursor >= Width(radius) {
      AfterLastRow(rows, radius, store, cursor, budget);
    }
  }

  /** Stopping the loop and starting it again later gives the same store
      as one uninterrupted run of the same total length; so does the
      counter, unless the first run had already claimed past the last
      row. */
  lemma AreaLoopResume(rows: Finder, radius: int, store: Store, cursor: nat, a: nat, b: nat)
    ensures var first := AreaLoop(rows, radius, store, cursor, a);
      var resumed := AreaLoop(rows, radius, first.0, first.1, b);
      var direct := AreaLoop(rows, radius, store, cursor, a + b);
      && resumed.0 == direct.0
      && (cursor + a <= Width(radius) ==> resumed.1 == direct.1)
  {
    ResumeSplit(rows, radius, store, cursor, a, b, a + b);
    assert ResumeAgrees(rows, radius, store, cursor, a, b, a + b);
  }

  /** The outcome of running `a` claims, then `b` more, against running
      `total` claims at once. */
  predicate ResumeAgrees(rows: Finder, radius: int, store: Store, cursor: nat, a: nat, b: nat, total: nat) {
    var first := AreaLoop(rows, radius, store, cursor, a);
    var resumed := AreaLoop(rows, radius, first.0, first.1, b);
    var direct := AreaLoop(rows, radius, store, cursor, total);
    && resumed.0 == direct.0
    && (cursor + a <= Width(radius) ==> resumed.1 == direct.1)
  }

  /** `AreaLoopResume` for a run of `total` claims split after `a`. */
  lemma {:induction false} ResumeSplit(rows: Finder, radius: int, store: Store, cursor: nat,
                                       a: nat, b: nat, total: nat)
    requires total == a + b
    ensures ResumeAgrees(rows, radius, store, cursor, a, b, total)
    decreases a
  {
    if a == 0 {
    } else if cursor >= Width(radius) {
      ResumePastEnd(rows, radius, store, cursor, a, b, total);
    } else {
      var n: nat := a - 1;
      var m: nat := n + b;
      var next := MergeFound(store, rows(Claim(radius, cursor).value));
      ResumeSplit(rows, radius, next, cursor + 1, n, b, m);
      ResumeAfterClaim(rows, radius, store, cursor, a, b, total, n, m);
    }
  }

  /** `ResumeSplit` when the first run starts past the last row. */
  lemma ResumePastEnd(rows: Finder, radius: int, store: Store, cursor: nat, a: nat, b: nat, total: nat)
    requires total == a + b
    requires a > 0 && cursor >= Width(radius)
    ensures ResumeAgrees(rows, radius, store, cursor, a, b, total)
  {
    AfterLastRow(rows, radius, store, cursor, a);
    AfterLastRow(rows, radius, store, cursor, total);
    AfterLastRow(rows, radius, store, cursor + 1, b);
  }

  /** `ResumeSplit` when the first run starts by claiming a row, given the
      result for the runs from the next claim on. */
  lemma ResumeAfterClaim(rows: Finder, radius: int, store: Store, cursor: nat,
                         a: nat, b: nat, total: nat, n: nat, m: nat)
    requires total == a + b && a == n + 1 && m == n + b
    requires cursor < Width(radius)
    requires ResumeAgrees(rows, radius, MergeFound(store, rows(Claim(radius, cursor).value)), cursor + 1, n, b, m)
    ensures ResumeAgrees(rows, radius, store, cursor, a, b, total)
  {
    var row := Claim(radius, cursor).value;
    AreaLoopStep(rows, radius, store, cursor, a, n, row);
    AreaLoopStep(rows, radius, store, cursor, total, m, row);
  }

  // ---------------------------------------------------------------------
  // Sweep loop

  /** A loop of at least one seed checks seed `next` and carries on from
      the seed after it. */
  lemma SweepLoopStep(seeds: Finder, store: Store, next: int, budget: nat, n: nat)
    requires n == budget - 1
    ensures SweepLoop(seeds, store, next, budget)
         == SweepLoop(seeds, MergeFound(store, seeds(next)), next + 1, n)
  {
  }

  /** The sweep only appends: the entries stored before it stay where they
      are. */
  lemma {:induction false} SweepLoopExtends(seeds: Finder, store: Store, next: int, budget: nat)
    ensures var out := SweepLoop(seeds, store, next, budget).0;
      |store| <= |out| && out[..|store|] == store
    decreases budget
  {
    if budget > 0 {
      var n: nat := budget - 1;
      var after := MergeFound(store, seeds(next));
      SweepLoopStep(seeds, store, next, budget, n);
      SweepLoopExtends(seeds, after, next + 1, n);
      var out := SweepLoop(seeds, after, next + 1, n).0;
      assert out[..|store|] == out[..|after|][..|store|];
    }
  }

  /** Everything found for a seed checked during the loop ends up in the
      store. */
  lemma {:induction false} SweepLoopComplete(seeds: Finder, store: Store, next: int, budget: nat,
                                             s: int, x: ClusterResult)
    requires next <= s < next + budget
    requires x in seeds(s)
    ensures Contains(SweepLoop(seeds, store, next, budget).0, x)
    decreases budget
  {
    var n: nat := budget - 1;
    var after := MergeFound(store, seeds(next));
    SweepLoopStep(seeds, store, next, budget, n);
    var rest := SweepLoop(seeds, after, next + 1, n);
    if s == next {
      MergeFoundContents(store, seeds(next));
      SweepLoopExtends(seeds, after, next + 1, n);
      ContainsPrefix(after, rest.0, x);
    } else {
      SweepLoopComplete(seeds, after, next + 1, n, s, x);
    }
  }

  /** Every entry the loop adds was found for one of the seeds checked. */
  lemma {:induction false} SweepLoopSound(seeds: Finder, store: Store, next: int, budget: nat, i: nat)
    requires |store| <= i < |SweepLoop(seeds, store, next, budget).0|
    ensures exists s :: next <= s < next + budget && SweepLoop(seeds, store, next, budget).0[i] in seeds(s)
    decreases budget
  {
    var n: nat := budget - 1;
    var after := MergeFound(store, seeds(next));
    SweepLoopStep(seeds, store, next, budget, n);
    var rest := SweepLoop(seeds, after, next + 1, n);
    if i < |after| {
      SweepLoopExtends(seeds, after, next + 1, n);
      assert rest.0[i] == after[i];
      MergeFoundContents(store, seeds(next));
    } else {
      SweepLoopSound(seeds, after, next + 1, n, i);
    }
  }

  /** The loop never creates a duplicate. */
  lemma {:induction false} SweepLoopKeepsNoDup(seeds: Finder, store: Store, next: int, budget: nat)
    requires NoDup(store)
    ensures NoDup(SweepLoop(seeds, store, next, budget).0)
    decreases budget
  {
    if budget > 0 {
      var n: nat := budget - 1;
      SweepLoopStep(seeds, store, next, budget, n);
      MergeKeepsNoDup(store, seeds(next));
      SweepLoopKeepsNoDup(seeds, MergeFound(store, seeds(next)), next + 1, n);
    }
  }

  // ---------------------------------------------------------------------
  // Area scan

  /** Every cluster of every region in a row claimed during the scan ends
      up in the store. */
  lemma AreaScanComplete(seed: int, radius: int, oracle: Oracle, store: Store,
                         cursor: nat, budget: nat, c: Cell, x: ClusterResult)
    requires Scanned(radius, cursor, AreaScan(seed, radius, oracle, store, cursor, budget).1, c)
    requires x in RegionAt(seed, c, oracle, false)
    ensures Contains(AreaScan(seed, radius, oracle, store, cursor, budget).0, x)
  {
    AreaLoopComplete(RowFinder(seed, radius, oracle), radius, store, cursor, budget, c.0, x);
  }

  /** Every entry the scan adds is a non-permanent result for `seed` of a
      region in a row claimed during the scan. */
  lemma AreaScanSound(seed: int, radius: int, oracle: Oracle, store: Store,
                      cursor: nat, budget: nat, i: nat)
    requires |store| <= i < |AreaScan(seed, radius, oracle, store, cursor, budget).0|
    ensures var out := AreaScan(seed, radius, oracle, store, cursor, budget);
      && !out.0[i].isPermanent && out.0[i].seed == seed
      && FoundIn(seed, radius, cursor, out.1, oracle, out.0[i])
  {
    var out := AreaScan(seed, radius, oracle, store, cursor, budget);
    AreaLoopSound(RowFinder(seed, radius, oracle), radius, store, cursor, budget, i);
    var rx :| -radius <= rx <= radius && cursor <= rx + radius < out.1
           && out.0[i] in RowResults(seed, radius, rx, oracle);
    var c: Cell :| c.0 == rx && -radius <= c.1 <= radius && out.0[i] in RegionAt(seed, c, oracle, false);
    assert Scanned(radius, cursor, out.1, c);
  }

  /** An area scan never creates a duplicate. */
  lemma AreaScanKeepsNoDup(seed: int, radius: int, oracle: Oracle, store: Store, cursor: nat, budget: nat)
    requires NoDup(store)
    ensures NoDup(AreaScan(seed, radius, oracle, store, cursor, budget).0)
  {
    AreaLoopKeepsNoDup(RowFinder(seed, radius, oracle), radius, store, cursor, budget);
  }

  /** Stopping an area scan and starting it again later gives the same
      store as one uninterrupted run, and the same counter unless the first
      run had already claimed past the last row. */
  lemma AreaScanResume(seed: int, radius: int, oracle: Oracle, store: Store, cursor: nat, a: nat, b: nat)
    ensures var first := AreaScan(seed, radius, oracle, store, cursor, a);
      var resumed := AreaScan(seed, radius, oracle, first.0, first.1, b);
      var direct := AreaScan(seed, radius, oracle, store, cursor, a + b);
      && resumed.0 == direct.0
      && (cursor + a <= Width(radius) ==> resumed.1 == direct.1)
  {
    AreaLoopResume(RowFinder(seed, radius, oracle), radius, store, cursor, a, b);
  }

  /** A scan started from claim 0 and left to run to its end visits every
      region of the square: afterwards the store holds every cluster of
      every region, the only new entries are area results of the square,
      and the counter stands one past the last row. */
  lemma FullAreaScan(seed: int, radius: int, oracle: Oracle, store: Store)
    ensures var out := AreaScan(seed, radius, oracle, store, 0, Width(radius) + 1);
      && out.1 == Width(radius) + 1
      && (forall c, x :: InSquare(radius, c) && x in RegionAt(seed, c, oracle, false) ==> Contains(out.0, x))
      && (forall i :: |store| <= i < |out.0| ==> !out.0[i].isPermanent && out.0[i].seed == seed)
  {
    var out := AreaScan(seed, radius, oracle, store, 0, Width(radius) + 1);
    forall c, x | InSquare(radius, c) && x in RegionAt(seed, c, oracle, false)
      ensures Contains(out.0, x)
    {
      assert Scanned(radius, 0, out.1, c);
      AreaScanComplete(seed, radius, oracle, store, 0, Width(radius) + 1, c, x);
    }
    forall i | |store| <= i < |out.0|
      ensures !out.0[i].isPermanent && out.0[i].seed == seed
    {
      AreaScanSound(seed, radius, oracle, store, 0, Width(radius) + 1, i);
    }
  }

  // ---------------------------------------------------------------------
  // Seed sweep

  /** Every cluster of every seed swept ends up in the store. */
  lemma SweepScanComplete(blocks: int, oracle: Oracle, store: Store, next: int,
                          budget: nat, s: int, x: ClusterResult)
    requires next <= s < next + budget
    requires x in SeedResults(s, blocks, oracle)
    ensures Contains(SweepScan(blocks, oracle, store, next, budget).0, x)
  {
    SweepLoopComplete(SeedFinder(blocks, oracle), store, next, budget, s, x);
  }

  /** Every entry a sweep adds is a permanent cluster of one of the swept
      seeds. */
  lemma SweepScanSound(blocks: int, oracle: Oracle, store: Store, next: int, budget: nat, i: nat)
    requires |store| <= i < |SweepScan(blocks, oracle, store, next, budget).0|
    ensures var e := SweepScan(blocks, oracle, store, next, budget).0[i];
      && e.isPermanent && next <= e.seed < next + budget
      && e in SeedResults(e.seed, blocks, oracle)
  {
    SweepLoopSound(SeedFinder(blocks, oracle), store, next, budget, i);
  }

  /** A sweep never creates a duplicate. */
  lemma SweepScanKeepsNoDup(blocks: int, oracle: Oracle, store: Store, next: int, budget: nat)
    requires NoDup(store)
    ensures NoDup(SweepScan(blocks, oracle, store, next, budget).0)
  {
    SweepLoopKeepsNoDup(SeedFinder(blocks, oracle), store, next, budget);
  }
}
