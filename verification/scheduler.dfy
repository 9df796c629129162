/** Work partition and the worker loop, with one worker and the generator
    given as a function. Area mode fixes the seed and claims one row of
    regions per step from a shared counter; sweep mode claims one seed per
    step and scans a small square of regions around the origin. */
module Scheduler {
  import opened Cluster
  import opened Classifier
  import opened ResultStore

  /** A region coordinate (rx, rz). */
  type Cell = (int, int)

  /** What the generator reports for a seed and a region. */
  type Oracle = (int, int, int) -> Probe

  /** Number of values in [-radius, radius]; none when the radius is negative. */
  function Width(radius: int): nat {
    if radius >= 0 then 2 * radius + 1 else 0
  }

  predicate InSquare(radius: int, c: Cell) {
    -radius <= c.0 <= radius && -radius <= c.1 <= radius
  }

  predicate Distinct<T(==)>(s: seq<T>) {
    forall i, j :: 0 <= i < j < |s| ==> s[i] != s[j]
  }

  lemma DistinctAppend<T>(a: seq<T>, b: seq<T>)
    requires Distinct(a) && Distinct(b)
    requires forall x :: x in a ==> x !in b
    ensures Distinct(a + b)
  {
    forall i, j | 0 <= i < j < |a + b|
      ensures (a + b)[i] != (a + b)[j]
    {
      if j < |a| {
        assert (a + b)[i] == a[i] && (a + b)[j] == a[j];
      } else if i >= |a| {
        assert (a + b)[i] == b[i - |a|] && (a + b)[j] == b[j - |a|];
      } else {
        assert (a + b)[i] == a[i] && (a + b)[j] == b[j - |a|];
        assert a[i] in a && b[j - |a|] in b;
      }
    }
  }

  // ---------------------------------------------------------------------
  // Area mode: claims and cells

  /** Claim number `k` of an area scan: row -radius + k, or nothing once
      that row lies beyond the radius. */
  function Claim(radius: int, k: nat): (row: Option<int>)
    ensures row.Some? <==> k < Width(radius)
    ensures row.Some? ==> -radius <= row.value <= radius
  {
    var rx := -radius + k;
    if rx > radius then None else Some(rx)
  }

  /** Every row of the square is handed out by exactly one claim. */
  lemma ClaimsCoverRowsOnce(radius: int, rx: int, k1: nat, k2: nat)
    ensures -radius <= rx <= radius ==> Claim(radius, rx + radius) == Some(rx)
    ensures Claim(radius, k1).Some? && Claim(radius, k1) == Claim(radius, k2) ==> k1 == k2
  {
  }

  /** The regions of row `rx`, scanned with rz from -radius to radius. */
  function RowCells(rx: int, radius: int): (cells: seq<Cell>)
    ensures |cells| == Width(radius)
    ensures forall c :: c in cells <==> c.0 == rx && -radius <= c.1 <= radius
    ensures Distinct(cells)
  {
    var cells := seq(Width(radius), j => (rx, -radius + j));
    assert forall c: Cell :: c.0 == rx && -radius <= c.1 <= radius ==> cells[c.1 + radius] == c;
    cells
  }

  /** The regions of the given rows, row after row. */
  function CellsOfRows(rows: seq<int>, radius: int): (cells: seq<Cell>)
    ensures |cells| == |rows| * Width(radius)
    ensures forall c :: c in cells <==> c.0 in rows && -radius <= c.1 <= radius
    ensures Distinct(rows) ==> Distinct(cells)
  {
    if |rows| == 0 then []
    else
      var init := rows[..|rows| - 1];
      var last := rows[|rows| - 1];
      assert rows == init + [last];
      var prev := CellsOfRows(init, radius);
      var row := RowCells(last, radius);
      assert Distinct(rows) ==> Distinct(prev + row) by {
        if Distinct(rows) {
          assert last !in init;
          DistinctAppend(prev, row);
        }
      }
      prev + row
  }

  /** The rows -radius .. radius, in claim order. */
  function SquareRows(radius: int): (rows: seq<int>)
    ensures |rows| == Width(radius)
    ensures forall k :: 0 <= k < |rows| ==> Claim(radius, k) == Some(rows[k])
  {
    seq(Width(radius), k => -radius + k)
  }

  /** All regions of the square of the given radius, row by row. */
  function SquareCells(radius: int): seq<Cell> {
    CellsOfRows(SquareRows(radius), radius)
  }

  /** The rows claimed one after another cover the square: every region
      is visited exactly once, and there are (2 * radius + 1)^2 of them. */
  lemma SquareCoverage(radius: int)
    ensures forall c :: c in SquareCells(radius) <==> InSquare(radius, c)
    ensures Distinct(SquareCells(radius))
    ensures radius >= 0 ==> |SquareCells(radius)| == (2 * radius + 1) * (2 * radius + 1)
    ensures radius < 0 ==> SquareCells(radius) == []
  {
    var rows := SquareRows(radius);
    forall rx | -radius <= rx <= radius
      ensures rx in rows
    {
      assert rows[rx + radius] == rx;
    }
    assert Distinct(rows);
  }

  // ---------------------------------------------------------------------
  // Results of a set of regions

  /** The clusters of one region. */
  function RegionAt(seed: int, c: Cell, oracle: Oracle, perm: bool): seq<ClusterResult> {
    RegionResults(seed, oracle(seed, c.0, c.1), perm)
  }

  /** The clusters of the given regions, region after region: exactly the
      results of those regions, all for `seed` and permanent as requested. */
  function CellsResults(seed: int, cells: seq<Cell>, oracle: Oracle, perm: bool): (r: seq<ClusterResult>)
    ensures forall x :: x in r ==> x.seed == seed && x.isPermanent == perm
    ensures forall c, x :: c in cells && x in RegionAt(seed, c, oracle, perm) ==> x in r
    ensures forall x :: x in r ==> exists c :: c in cells && x in RegionAt(seed, c, oracle, perm)
  {
    if |cells| == 0 then []
    else
      var init := cells[..|cells| - 1];
      var last := cells[|cells| - 1];
      assert cells == init + [last];
      CellsResults(seed, init, oracle, perm) + RegionAt(seed, last, oracle, perm)
  }

  // ---------------------------------------------------------------------
  // The worker loop, independent of what one unit of work finds

  /** What a worker finds for one unit of work: a claimed row in area
      mode, a seed in sweep mode. */
  type Finder = int -> seq<ClusterResult>

  /** The store after merging what one unit of work found; the merge is
      skipped when it found nothing. */
  function MergeFound(store: Store, batch: seq<ClusterResult>): (next: Store)
    ensures |store| <= |next| && next[..|store|] == store
  {
    if |batch| > 0 then Merge(store, batch) else store
  }

  /** After merging, every found cluster is present, and every added entry
      is one of them. */
  lemma MergeFoundContents(store: Store, batch: seq<ClusterResult>)
    ensures forall x :: x in batch ==> Contains(MergeFound(store, batch), x)
    ensures forall k :: |store| <= k < |MergeFound(store, batch)| ==> MergeFound(store, batch)[k] in batch
  {
    MergeHoldsBatch(store, batch);
    MergeAddsOnlyBatch(store, batch);
    assert forall x :: x in batch ==> exists i :: 0 <= i < |batch| && batch[i] == x;
  }

  /** One worker in area mode from claim number `cursor`, stopped after at
      most `budget` claims; `rows` gives what a claimed row finds. A claim
      past the last row ends the scan but still advances the counter.
      Returns the store and the counter. The entries already stored stay
      where they are (`ScanProperties.AreaLoopExtends`). */
  function AreaLoop(rows: Finder, radius: int, store: Store, cursor: nat, budget: nat): (out: (Store, nat))
    ensures cursor <= out.1
    ensures cursor + budget <= Width(radius) ==> out.1 == cursor + budget
    ensures budget > 0 && cursor + budget > Width(radius) ==>
      out.1 == (if cursor < Width(radius) then Width(radius) else cursor) + 1
    decreases budget
  {
    if budget == 0 then (store, cursor)
    else
      match Claim(radius, cursor)
      case None => (store, cursor + 1)
      case Some(rx) =>
        AreaLoop(rows, radius, MergeFound(store, rows(rx)), cursor + 1, budget - 1)
  }

  /** One worker in sweep mode checking `budget` seeds from `next` on;
      `seeds` gives what a seed finds. Returns the store and the next seed
      to check. The entries already stored stay where they are
      (`ScanProperties.SweepLoopExtends`). */
  function SweepLoop(seeds: Finder, store: Store, next: int, budget: nat): (out: (Store, int))
    ensures out.1 == next + budget
    decreases budget
  {
    if budget == 0 then (store, next)
    else
      SweepLoop(seeds, MergeFound(store, seeds(next)), next + 1, budget - 1)
  }

  // ---------------------------------------------------------------------
  // Area scan

  /** Region `c` lies in the square, in a row claimed by a claim number in
      [lo, hi). */
  predicate Scanned(radius: int, lo: int, hi: int, c: Cell) {
    InSquare(radius, c) && lo <= c.0 + radius < hi
  }

  /** `x` is a cluster of some region scanned by claims lo .. hi - 1. */
  ghost predicate FoundIn(seed: int, radius: int, lo: int, hi: int, oracle: Oracle, x: ClusterResult) {
    exists c :: Scanned(radius, lo, hi, c) && x in RegionAt(seed, c, oracle, false)
  }

  /** The area results of one claimed row: the clusters of its regions,
      all non-permanent results for `seed`. */
  function RowResults(seed: int, radius: int, rx: int, oracle: Oracle): (r: seq<ClusterResult>)
    ensures forall x :: x in r ==> x.seed == seed && !x.isPermanent
    ensures forall c: Cell, x :: c.0 == rx && -radius <= c.1 <= radius && x in RegionAt(seed, c, oracle, false) ==> x in r
    ensures forall x :: x in r ==> exists c: Cell :: c.0 == rx && -radius <= c.1 <= radius && x in RegionAt(seed, c, oracle, false)
  {
    CellsResults(seed, RowCells(rx, radius), oracle, false)
  }

  /** The finder of area mode for a fixed seed. */
  function RowFinder(seed: int, radius: int, oracle: Oracle): (rows: Finder)
    ensures forall rx :: rows(rx) == RowResults(seed, radius, rx, oracle)
  {
    rx => RowResults(seed, radius, rx, oracle)
  }

  /** One worker running an area scan for `seed`: each claim below
      2R + 1 scans one row, and the first claim past the last row ends the
      scan. What it stores is stated in `ScanProperties`. */
  function AreaScan(seed: int, radius: int, oracle: Oracle, store: Store, cursor: nat, budget: nat)
    : (out: (Store, nat))
    ensures cursor + budget <= Width(radius) ==> out.1 == cursor + budget
    ensures budget > 0 && cursor + budget > Width(radius) ==>
      out.1 == (if cursor < Width(radius) then Width(radius) else cursor) + 1
  {
    AreaLoop(RowFinder(seed, radius, oracle), radius, store, cursor, budget)
  }

  // ---------------------------------------------------------------------
  // Sweep mode

  /** Blocks per region step used to turn the distance limit into a
      region radius. */
  const BlocksPerRegion: int := 432

  /** The region radius of a seed sweep: blocks / 432 + 1, with the
      division truncating toward zero as in C++. */
  function SweepRadius(blocks: int): (r: int)
    ensures blocks >= 0 ==> (r - 1) * BlocksPerRegion <= blocks < r * BlocksPerRegion
    ensures blocks < 0 ==> (r - 2) * BlocksPerRegion < blocks <= (r - 1) * BlocksPerRegion
    ensures blocks >= 0 ==> r >= 1
  {
    if blocks >= 0 then blocks / BlocksPerRegion + 1
    else -((-blocks) / BlocksPerRegion) + 1
  }

  /** A non-negative distance limit gives a square of (2r + 1)^2 regions,
      at least 3 by 3; a limit of -864 or less gives no region at all. */
  lemma SweepRegionCount(blocks: int)
    ensures blocks >= 0 ==>
      |SquareCells(SweepRadius(blocks))| == (2 * SweepRadius(blocks) + 1) * (2 * SweepRadius(blocks) + 1) >= 9
    ensures blocks <= -2 * BlocksPerRegion ==> SquareCells(SweepRadius(blocks)) == []
  {
    SquareCoverage(SweepRadius(blocks));
    if blocks >= 0 {
      OddSquareAtLeastNine(SweepRadius(blocks));
    }
  }

  lemma OddSquareAtLeastNine(r: int)
    requires r >= 1
    ensures (2 * r + 1) * (2 * r + 1) >= 9
  {
    var w := 2 * r + 1;
    assert w * w >= 3 * w by {
      assert w * w - 3 * w == w * (w - 3);
    }
  }

  /** The permanent results of checking one seed in sweep mode: exactly
      the clusters of the regions in the sweep square. */
  function SeedResults(seed: int, blocks: int, oracle: Oracle): (r: seq<ClusterResult>)
    ensures forall x :: x in r ==> x.seed == seed && x.isPermanent
    ensures forall c, x :: InSquare(SweepRadius(blocks), c) && x in RegionAt(seed, c, oracle, true) ==> x in r
    ensures forall x :: x in r ==> exists c :: InSquare(SweepRadius(blocks), c) && x in RegionAt(seed, c, oracle, true)
  {
    SquareCoverage(SweepRadius(blocks));
    CellsResults(seed, SquareCells(SweepRadius(blocks)), oracle, true)
  }

  /** The finder of sweep mode. */
  function SeedFinder(blocks: int, oracle: Oracle): (seeds: Finder)
    ensures forall s :: seeds(s) == SeedResults(s, blocks, oracle)
  {
    s => SeedResults(s, blocks, oracle)
  }

  /** One worker sweeping `budget` seeds starting at `next`, each over the
      square of radius `SweepRadius(blocks)`. */
  function SweepScan(blocks: int, oracle: Oracle, store: Store, next: int, budget: nat): (out: (Store, int))
    ensures out.1 == next + budget
  {
    SweepLoop(SeedFinder(blocks, oracle), store, next, budget)
  }
}
