/** The expanding-ring grid search for each row's three nearest neighbours,
    proved equal to ranking every other row. */
module GridNearest {
  import opened TopK

  const RELATED_DEGREE: nat := 3

  datatype Row = Row(lon: real, lat: real)

  datatype Related = Related(source: nat, destination: nat, weight: real, since: int)

  type Cell = (int, int)

  /** `cell_of`. */
  function CellOf(row: Row, cell: real): Cell
    requires cell > 0.0
  {
    ((row.lon / cell).Floor, (row.lat / cell).Floor)
  }

  function Abs(x: int): nat { if x < 0 then -x else x }

  function MaxOf(a: nat, b: nat): nat { if a < b then b else a }

  /** How many cells apart two cells are, along the worse axis. */
  function Gap(a: Cell, b: Cell): nat { MaxOf(Abs(a.0 - b.0), Abs(a.1 - b.1)) }

  function CellsOf(rows: seq<Row>, cell: real): (cells: seq<Cell>)
    requires cell > 0.0
    ensures |cells| == |rows| && forall i :: 0 <= i < |rows| ==> cells[i] == CellOf(rows[i], cell)
  {
    seq(|rows|, i requires 0 <= i < |rows| => CellOf(rows[i], cell))
  }

  // ----------------------------------------------------------- brute force

  /** Every row but `i`. */
  function Others(n: nat, i: nat): set<nat> { set j: nat | j < n && IsOther(j, i) }

  predicate IsOther(j: nat, i: nat) { j != i }

  function OtherList(n: nat, i: nat): (s: seq<nat>)
    ensures Rows(s) == Others(n, i)
  {
    if n == 0 then []
    else
      var s := OtherList(n - 1, i);
      assert Rows(s + [n - 1]) == Rows(s) + {n - 1};
      assert Others(n, i) == if IsOther(n - 1, i) then Others(n - 1, i) + {n - 1} else Others(n - 1, i);
      if n - 1 == i then s else s + [n - 1]
  }

  function DistFrom(dist: (nat, nat) -> real, i: nat): nat -> real { (j: nat) => dist(i, j) }

  /** The three nearest other rows, found by ranking all of them. */
  function BruteForce(dist: (nat, nat) -> real, n: nat, i: nat): seq<nat> {
    Smallest(DistFrom(dist, i), OtherList(n, i), RELATED_DEGREE)
  }

  /** Distances are not negative. */
  ghost predicate Measures(dist: (nat, nat) -> real) { forall i: nat, j: nat :: dist(i, j) >= 0.0 }

  /** `related_weight`: 1 for a coincident pair, a half at a kilometre. */
  function RelatedWeight(metres: real): (w: real)
    requires metres >= 0.0
    ensures 0.0 < w <= 1.0 && w * (1000.0 + metres) == 1000.0
  {
    UnitFraction(1.0 + metres / 1000.0);
    Thousandths(metres);
    1.0 / (1.0 + metres / 1000.0)
  }

  lemma UnitFraction(x: real)
    requires x >= 1.0
    ensures 0.0 < 1.0 / x <= 1.0
  {
    var q := 1.0 / x;
    assert q * x == 1.0;
    if q <= 0.0 { NotPositive(q, x); }
    if q > 1.0 { StrictScale(1.0, q, x); }
  }

  lemma Thousandths(metres: real)
    requires metres >= 0.0
    ensures 1.0 / (1.0 + metres / 1000.0) * (1000.0 + metres) == 1000.0
  {
    var x := 1.0 + metres / 1000.0;
    assert 1.0 / x * x == 1.0;
    assert 1000.0 + metres == 1000.0 * x;
    assert 1.0 / x * (1000.0 * x) == 1000.0 * (1.0 / x * x);
  }

  lemma NotPositive(q: real, x: real)
    requires q <= 0.0 && x > 0.0
    ensures q * x <= 0.0
  {
  }

  /** The edges of one row; `born` is a column of the rows no search looks at. */
  function EdgesOf(dist: (nat, nat) -> real, born: nat -> int, i: nat, best: seq<nat>): (s: seq<Related>)
    requires Measures(dist)
    ensures |s| == |best|
  {
    seq(|best|, k requires 0 <= k < |best| =>
      Related(i, best[k], RelatedWeight(dist(i, best[k])), born(i)))
  }

  /** Edges from the first `i` rows, each to its brute-force nearest. */
  function BruteForceEdges(dist: (nat, nat) -> real, born: nat -> int, n: nat, i: nat): seq<Related>
    requires Measures(dist)
  {
    if i == 0 then []
    else BruteForceEdges(dist, born, n, i - 1) + EdgesOf(dist, born, i - 1, BruteForce(dist, n, i - 1))
  }

  // ------------------------------------------------------ what an edge list says

  /** Where the edges from row `i` go, in the order they stand. */
  function Destinations(edges: seq<Related>, i: nat): seq<nat> {
    if edges == [] then []
    else (if edges[0].source == i then [edges[0].destination] else []) + Destinations(edges[1..], i)
  }

  /** An edge says what it connects: its source's `born`, and the weight of its
      length. */
  ghost predicate EdgeOk(e: Related, dist: (nat, nat) -> real, born: nat -> int) {
    e.since == born(e.source) && e.weight * (1000.0 + dist(e.source, e.destination)) == 1000.0
  }

  /** The edges of the first `n` of `total` rows: row by row, and from each row to
      the three nearest others, nearest first. */
  ghost predicate EdgesOfNearest(edges: seq<Related>, dist: (nat, nat) -> real, born: nat -> int, total: nat, n: nat) {
    && (forall k :: 0 <= k < |edges| ==> edges[k].source < n && EdgeOk(edges[k], dist, born))
    && (forall a, b :: 0 <= a < b < |edges| ==> edges[a].source <= edges[b].source)
    && (forall i: nat :: i < n ==> IsNearest(DistFrom(dist, i), Destinations(edges, i), Others(total, i), RELATED_DEGREE))
  }

  lemma {:induction false} DestinationsOfConcat(a: seq<Related>, b: seq<Related>, i: nat)
    ensures Destinations(a + b, i) == Destinations(a, i) + Destinations(b, i)
  {
    if a == [] {
      assert a + b == b;
    } else {
      var first := if a[0].source == i then [a[0].destination] else [];
      assert (a + b)[1..] == a[1..] + b && (a + b)[0] == a[0];
      DestinationsOfConcat(a[1..], b, i);
      assert Destinations(a, i) == first + Destinations(a[1..], i);
      assert Destinations(a + b, i) == first + Destinations(a[1..] + b, i);
      hide Destinations;
      assert first + (Destinations(a[1..], i) + Destinations(b, i)) == first + Destinations(a[1..], i) + Destinations(b, i);
    }
  }

  /** Edges that all leave one row go to no other row's list. */
  lemma {:induction false} DestinationsOfOne(edges: seq<Related>, from: nat, best: seq<nat>, i: nat)
    requires |edges| == |best|
    requires forall k :: 0 <= k < |edges| ==> edges[k].source == from && edges[k].destination == best[k]
    ensures Destinations(edges, i) == if i == from then best else []
  {
    if edges != [] {
      DestinationsOfOne(edges[1..], from, best[1..], i);
      assert best == [best[0]] + best[1..];
    }
  }

  /** Adding a row's edges to those of the rows before it. */
  lemma OneRowMore(edges: seq<Related>, more: seq<Related>, best: seq<nat>, dist: (nat, nat) -> real, born: nat -> int,
                   total: nat, n: nat)
    requires EdgesOfNearest(edges, dist, born, total, n) && |more| == |best|
    requires forall k :: 0 <= k < |more| ==>
               more[k].source == n && more[k].destination == best[k] && EdgeOk(more[k], dist, born)
    requires IsNearest(DistFrom(dist, n), best, Others(total, n), RELATED_DEGREE)
    ensures EdgesOfNearest(edges + more, dist, born, total, n + 1)
  {
    hide IsNearest, EdgeOk;
    forall i: nat | i < n + 1
      ensures IsNearest(DistFrom(dist, i), Destinations(edges + more, i), Others(total, i), RELATED_DEGREE)
    {
      DestinationsOfConcat(edges, more, i);
      DestinationsOfOne(more, n, best, i);
      if i == n { NoneYet(edges, n); }
      assert Destinations(edges + more, i) == if i == n then best else Destinations(edges, i);
    }
  }

  lemma {:induction false} NoneYet(edges: seq<Related>, n: nat)
    requires forall k :: 0 <= k < |edges| ==> edges[k].source < n
    ensures Destinations(edges, n) == []
  {
    if edges != [] { NoneYet(edges[1..], n); }
  }

  lemma EdgesSay(dist: (nat, nat) -> real, born: nat -> int, i: nat, best: seq<nat>)
    requires Measures(dist)
    ensures var s := EdgesOf(dist, born, i, best);
            forall k :: 0 <= k < |s| ==>
              s[k].source == i && s[k].destination == best[k] && EdgeOk(s[k], dist, born)
  {
  }

  // ------------------------------------------------------------- the grid

  predicate InBucket(grid: map<Cell, seq<nat>>, c: Cell, j: nat) {
    c in grid && j in grid[c]
  }

  /** A grid holds each row exactly in the bucket of its cell. */
  ghost predicate GridOf(grid: map<Cell, seq<nat>>, cells: seq<Cell>, n: nat)
    requires n <= |cells|
  {
    && (forall c: Cell, j: nat :: InBucket(grid, c, j) <==> j < n && cells[j] == c)
    && (forall c: Cell :: c in grid ==> NoRepeats(grid[c]))
  }

  predicate NoRepeats(s: seq<nat>) { forall a, b :: 0 <= a < b < |s| ==> s[a] != s[b] }

  lemma OneMoreRow(s: seq<nat>, x: nat)
    requires NoRepeats(s) && x !in s
    ensures NoRepeats(s + [x])
  {
  }

  method BuildGrid(cells: seq<Cell>) returns (grid: map<Cell, seq<nat>>)
    ensures GridOf(grid, cells, |cells|)
  {
    grid := map[];
    for i := 0 to |cells|
      invariant GridOf(grid, cells, i)
    {
      var bucket := if cells[i] in grid then grid[cells[i]] else [];
      ghost var before := grid;
      assert cells[i] in grid ==> !InBucket(grid, cells[i], i);
      OneMoreRow(bucket, i);
      grid := grid[cells[i] := bucket + [i]];
      forall c: Cell, j: nat
        ensures InBucket(grid, c, j) <==> j < i + 1 && cells[j] == c
      {
        assert InBucket(before, c, j) <==> j < i && cells[j] == c;
        assert j in bucket + [i] <==> j in bucket || j == i;
      }
    }
  }

  /** The rows other than `i` fewer than `ring` cells away. */
  function Inside(cells: seq<Cell>, i: nat, ring: nat): set<nat>
    requires i < |cells|
  {
    set j: nat | j < |cells| && j != i && Gap(cells[i], cells[j]) < ring
  }

  /** The rows other than `i` exactly `ring` cells away. */
  function OnShell(cells: seq<Cell>, i: nat, ring: nat): set<nat>
    requires i < |cells|
  {
    set j: nat | j < |cells| && j != i && Gap(cells[i], cells[j]) == ring
  }

  /** One bucket's rows but `i`. */
  method ScanBucket(bucket: seq<nat>, i: nat, found: seq<nat>) returns (out: seq<nat>)
    requires NoRepeats(bucket) && NoRepeats(found) && forall j :: j in bucket ==> j !in found
    ensures forall j :: j in out <==> j in found || (j in bucket && j != i)
    ensures NoRepeats(out)
  {
    hide NoRepeats;
    out := found;
    for k := 0 to |bucket|
      invariant NoRepeats(out)
      invariant forall j :: j in out <==> j in found || (j in bucket[..k] && j != i)
    {
      assert bucket[..k + 1] == bucket[..k] + [bucket[k]];
      NotYet(bucket, k);
      if bucket[k] != i {
        OneMoreRow(out, bucket[k]);
        out := out + [bucket[k]];
      }
    }
    assert bucket[..|bucket|] == bucket;
  }

  lemma NotYet(s: seq<nat>, k: nat)
    requires NoRepeats(s) && k < |s|
    ensures s[k] !in s[..k]
  {
  }

  /** The shell scan: the cells `ring` steps from row `i`'s cell and no others,
      each once. */
  method ScanShell(cells: seq<Cell>, grid: map<Cell, seq<nat>>, i: nat, ring: nat) returns (found: seq<nat>)
    requires i < |cells| && GridOf(grid, cells, |cells|)
    ensures Rows(found) == OnShell(cells, i, ring) && NoRepeats(found)
  {
    hide NoRepeats, GridOf;
    NothingRepeats();
    var (cx, cy) := cells[i];
    found := [];
    var dx := -(ring as int);
    while dx <= ring
      invariant -(ring as int) <= dx <= ring + 1 && NoRepeats(found)
      invariant forall j :: j in found <==> j in OnShell(cells, i, ring) && cells[j].0 - cx < dx
    {
      var dy := -(ring as int);
      while dy <= ring
        invariant -(ring as int) <= dy <= ring + 1 && NoRepeats(found)
        invariant forall j :: j in found <==>
          j in OnShell(cells, i, ring) &&
          (cells[j].0 - cx < dx || (cells[j].0 - cx == dx && cells[j].1 - cy < dy))
      {
        var at := (cx + dx, cy + dy);
        var shell := !(ring > 0 && Abs(dx) != ring && Abs(dy) != ring);
        ghost var before := found;
        ShellCell(cells, grid, i, ring, dx, dy);
        if shell && at in grid {
          BucketOf(cells, grid, i, at);
          found := ScanBucket(grid[at], i, found);
        }
        assert forall j :: j in found <==> j in before || (shell && InBucket(grid, at, j) && j != i);
        dy := dy + 1;
      }
      dx := dx + 1;
    }
    assert Rows(found) == OnShell(cells, i, ring);
  }

  lemma NothingRepeats()
    ensures NoRepeats([])
  {
  }

  lemma BucketOf(cells: seq<Cell>, grid: map<Cell, seq<nat>>, i: nat, at: Cell)
    requires i < |cells| && GridOf(grid, cells, |cells|) && at in grid
    ensures NoRepeats(grid[at])
  {
  }

  /** The rows of one shell cell; a cell the scan skips holds no row of the shell. */
  lemma ShellCell(cells: seq<Cell>, grid: map<Cell, seq<nat>>, i: nat, ring: nat, dx: int, dy: int)
    requires i < |cells| && GridOf(grid, cells, |cells|) && Abs(dx) <= ring && Abs(dy) <= ring
    ensures var at := (cells[i].0 + dx, cells[i].1 + dy);
            var shell := !(ring > 0 && Abs(dx) != ring && Abs(dy) != ring);
            forall j: nat :: shell && InBucket(grid, at, j) && j != i <==>
              j in OnShell(cells, i, ring) && cells[j].0 - cells[i].0 == dx && cells[j].1 - cells[i].1 == dy
  {
    var at := (cells[i].0 + dx, cells[i].1 + dy);
    forall j: nat
      ensures InBucket(grid, at, j) <==> j < |cells| && cells[j].0 - cells[i].0 == dx && cells[j].1 - cells[i].1 == dy
    {
      assert j < |cells| ==> (cells[j] == at <==> cells[j].0 == at.0 && cells[j].1 == at.1);
    }
  }

  // ----------------------------------------------------- the two exits

  /** The separation the search relies on: two rows with k whole cells between
      them are further apart than k times the shortest cell side. */
  ghost predicate CellsSeparate(dist: (nat, nat) -> real, cells: seq<Cell>, metresPerCell: real) {
    && metresPerCell >= 0.0
    && forall i: nat, j: nat :: i < |cells| && j < |cells| && Gap(cells[i], cells[j]) >= 1 ==>
         dist(i, j) > (Gap(cells[i], cells[j]) - 1) as real * metresPerCell
  }

  /** `extent` bounds how far apart two rows lie along each axis. */
  ghost predicate Spans(rows: seq<Row>, extent: real) {
    forall i, j :: 0 <= i < |rows| && 0 <= j < |rows| ==>
      rows[i].lon - rows[j].lon <= extent && rows[i].lat - rows[j].lat <= extent
  }

  lemma FloorGap(a: real, b: real, cell: real, ring: nat)
    requires cell > 0.0 && a - b <= ring as real * cell
    ensures (a / cell).Floor - (b / cell).Floor <= ring
  {
    assert a / cell - b / cell == (a - b) / cell;
    DivideBy(a - b, ring as real, cell);
  }

  lemma DivideBy(x: real, k: real, cell: real)
    requires cell > 0.0 && x <= k * cell
    ensures x / cell <= k
  {
    var q := x / cell;
    assert q * cell == x;
    if k < q { StrictScale(k, q, cell); }
  }

  /** A ring wider than the corpus has seen every row. */
  lemma WholeCorpusInside(rows: seq<Row>, cell: real, extent: real, i: nat, ring: nat)
    requires cell > 0.0 && i < |rows| && Spans(rows, extent) && ring as real * cell > extent
    ensures Inside(CellsOf(rows, cell), i, ring + 1) == Others(|rows|, i)
  {
    var cells := CellsOf(rows, cell);
    forall j: nat | j < |rows| ensures Gap(cells[i], cells[j]) <= ring {
      FloorGap(rows[i].lon, rows[j].lon, cell, ring);
      FloorGap(rows[j].lon, rows[i].lon, cell, ring);
      FloorGap(rows[i].lat, rows[j].lat, cell, ring);
      FloorGap(rows[j].lat, rows[i].lat, cell, ring);
    }
    forall j: nat ensures j in Inside(cells, i, ring + 1) <==> j in Others(|rows|, i) {
      assert IsOther(j, i) <==> j != i;
    }
  }

  /** Once the third-best is within the covered distance nothing outside the ring
      can beat it. */
  lemma CoveredIsEnough(dist: (nat, nat) -> real, cells: seq<Cell>, mpc: real, i: nat, ring: nat, best: seq<nat>)
    requires i < |cells| && CellsSeparate(dist, cells, mpc)
    requires IsNearest(DistFrom(dist, i), best, Inside(cells, i, ring + 1), RELATED_DEGREE)
    requires |best| == RELATED_DEGREE && dist(i, best[RELATED_DEGREE - 1]) <= ring as real * mpc
    ensures IsNearest(DistFrom(dist, i), best, Others(|cells|, i), RELATED_DEGREE)
  {
    var d := DistFrom(dist, i);
    var near, all := Inside(cells, i, ring + 1), Others(|cells|, i);
    forall j: nat | j in near ensures j in all { assert IsOther(j, i); }
    forall x, y | x in all && x !in near && y in best
      ensures d(y) < d(x)
    {
      assert IsOther(x, i) && Gap(cells[i], cells[x]) >= ring + 1;
      OutsideIsFurther(dist, cells, mpc, i, x, ring);
      LastIsFurthest(d, best, y);
    }
    hide CellsSeparate, Others, Inside;
    FurtherRowsDoNotCount(d, best, near, all, RELATED_DEGREE);
  }

  lemma OutsideIsFurther(dist: (nat, nat) -> real, cells: seq<Cell>, mpc: real, i: nat, x: nat, ring: nat)
    requires i < |cells| && x < |cells| && CellsSeparate(dist, cells, mpc) && Gap(cells[i], cells[x]) >= ring + 1
    ensures dist(i, x) > ring as real * mpc
  {
    var g := Gap(cells[i], cells[x]);
    assert dist(i, x) > (g - 1) as real * mpc;
    Scale(ring as real, (g - 1) as real, mpc);
  }

  lemma LastIsFurthest(d: nat -> real, best: seq<nat>, y: nat)
    requires Ranked(d, best) && y in best
    ensures d(y) <= d(best[|best| - 1])
  {
    var k :| 0 <= k < |best| && best[k] == y;
    assert k < |best| - 1 ==> Precedes(d, best[k], best[|best| - 1]);
  }

  lemma StrictScale(a: real, b: real, c: real)
    requires a < b && c > 0.0
    ensures a * c < b * c
  {
  }

  lemma Scale(a: real, b: real, c: real)
    requires a <= b && c >= 0.0
    ensures a * c <= b * c
  {
  }

  lemma NextRing(cells: seq<Cell>, i: nat, ring: nat)
    requires i < |cells|
    ensures Inside(cells, i, ring + 1) == Inside(cells, i, ring) + OnShell(cells, i, ring)
    ensures Inside(cells, i, 0) == {}
  {
  }

  /** Ranking the kept three with the next shell keeps the three nearest so far. */
  lemma KeepNearest(d: nat -> real, cells: seq<Cell>, i: nat, ring: nat, kept: seq<nat>, found: seq<nat>)
    requires i < |cells| && Rows(found) == OnShell(cells, i, ring)
    requires IsNearest(d, kept, Inside(cells, i, ring), RELATED_DEGREE)
    ensures IsNearest(d, Smallest(d, kept + found, RELATED_DEGREE), Inside(cells, i, ring + 1), RELATED_DEGREE)
  {
    SmallestIsNearest(d, kept + found, RELATED_DEGREE);
    assert Rows(kept + found) == Rows(kept) + Rows(found);
    NextRing(cells, i, ring);
    hide IsNearest, Smallest;
    CutLosesNothing(d, kept, Inside(cells, i, ring), Rows(found), Smallest(d, kept + found, RELATED_DEGREE), RELATED_DEGREE);
  }

  lemma BruteForceIsNearest(dist: (nat, nat) -> real, n: nat, i: nat, best: seq<nat>)
    requires IsNearest(DistFrom(dist, i), best, Others(n, i), RELATED_DEGREE)
    ensures best == BruteForce(dist, n, i)
  {
    SmallestIsNearest(DistFrom(dist, i), OtherList(n, i), RELATED_DEGREE);
    NearestIsUnique(DistFrom(dist, i), best, BruteForce(dist, n, i), Others(n, i), RELATED_DEGREE);
  }

  /** The ring loop for one row. */
  method SearchRings(rows: seq<Row>, dist: (nat, nat) -> real, cell: real, metresPerCell: real, extent: real,
                     grid: map<Cell, seq<nat>>, i: nat) returns (best: seq<nat>)
    requires cell > 0.0 && i < |rows| && Spans(rows, extent)
    requires CellsSeparate(dist, CellsOf(rows, cell), metresPerCell)
    requires GridOf(grid, CellsOf(rows, cell), |rows|)
    ensures best == BruteForce(dist, |rows|, i)
    ensures IsNearest(DistFrom(dist, i), best, Others(|rows|, i), RELATED_DEGREE)
  {
    hide IsNearest, Smallest, BruteForce, CellsSeparate, Spans, Inside, OnShell, GridOf, CellOf;
    var cells := CellsOf(rows, cell);
    var d := DistFrom(dist, i);
    best := [];
    var ring := 0;
    ghost var last := LastRing(extent, cell);
    NothingSeen(d, cells, i);
    while true
      invariant ring <= last
      invariant IsNearest(d, best, Inside(cells, i, ring), RELATED_DEGREE)
      decreases last - ring
    {
      var found := ScanShell(cells, grid, i, ring);
      KeepNearest(d, cells, i, ring, best, found);
      best := Smallest(d, best + found, RELATED_DEGREE);
      var covered := ring as real * metresPerCell;
      if |best| == RELATED_DEGREE && dist(i, best[RELATED_DEGREE - 1]) <= covered {
        CoveredIsEnough(dist, cells, metresPerCell, i, ring, best);
        break;
      }
      if ring as real * cell > extent {
        WholeCorpusInside(rows, cell, extent, i, ring);
        break;
      }
      LastRingStops(extent, cell, ring);
      ring := ring + 1;
    }
    BruteForceIsNearest(dist, |rows|, i, best);
  }

  lemma NothingSeen(d: nat -> real, cells: seq<Cell>, i: nat)
    requires i < |cells|
    ensures IsNearest(d, [], Inside(cells, i, 0), RELATED_DEGREE)
  {
    NextRing(cells, i, 0);
  }

  /** The first ring certainly wider than the corpus. */
  ghost function LastRing(extent: real, cell: real): nat
    requires cell > 0.0
  {
    if extent < 0.0 then 0 else (extent / cell).Floor + 1
  }

  lemma LastRingStops(extent: real, cell: real, ring: nat)
    requires cell > 0.0 && ring as real * cell <= extent
    ensures ring < LastRing(extent, cell)
  {
    var q := extent / cell;
    assert q * cell == extent;
    if q < ring as real { StrictScale(q, ring as real, cell); }
  }

  /** The corpus's west, east, south and north, summed as the loop exit reads them. */
  method Extent(rows: seq<Row>) returns (extent: real)
    requires |rows| > 0
    ensures Spans(rows, extent)
  {
    var west, east, south, north := rows[0].lon, rows[0].lon, rows[0].lat, rows[0].lat;
    for i := 0 to |rows|
      invariant west <= east && south <= north
      invariant forall j :: 0 <= j < i ==> west <= rows[j].lon <= east && south <= rows[j].lat <= north
    {
      west := if rows[i].lon < west then rows[i].lon else west;
      east := if rows[i].lon > east then rows[i].lon else east;
      south := if rows[i].lat < south then rows[i].lat else south;
      north := if rows[i].lat > north then rows[i].lat else north;
    }
    extent := (east - west) + (north - south);
  }

  /** `related_edges`: every row's edges go to exactly its brute-force nearest. */
  method RelatedEdges(rows: seq<Row>, born: nat -> int, dist: (nat, nat) -> real, cell: real, metresPerCell: real)
    returns (out: seq<Related>)
    requires Measures(dist) && cell > 0.0 && CellsSeparate(dist, CellsOf(rows, cell), metresPerCell)
    ensures out == BruteForceEdges(dist, born, |rows|, |rows|)
    ensures EdgesOfNearest(out, dist, born, |rows|, |rows|)
  {
    hide BruteForce, EdgesOf, CellsSeparate, Spans, GridOf, Measures, CellOf, IsNearest, EdgesOfNearest, EdgeOk;
    NoEdges(dist, born, |rows|);
    out := [];
    if |rows| == 0 { return; }
    var extent := Extent(rows);
    var grid := BuildGrid(CellsOf(rows, cell));
    for i := 0 to |rows|
      invariant out == BruteForceEdges(dist, born, |rows|, i)
      invariant EdgesOfNearest(out, dist, born, |rows|, i)
    {
      var best := SearchRings(rows, dist, cell, metresPerCell, extent, grid, i);
      EdgesSay(dist, born, i, best);
      OneRowMore(out, EdgesOf(dist, born, i, best), best, dist, born, |rows|, i);
      out := out + EdgesOf(dist, born, i, best);
    }
  }

  lemma NoEdges(dist: (nat, nat) -> real, born: nat -> int, total: nat)
    ensures EdgesOfNearest([], dist, born, total, 0)
  {
  }
}
