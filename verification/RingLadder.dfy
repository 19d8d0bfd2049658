/** The k-nearest ladder over an index with no nearest-neighbour cursor: ask
    inside growing boxes, and accept an answer only when nothing outside its
    box can displace it. */
module RingLadder {
  import opened TopK

  const K: nat := 10

  /** The radii tried, in metres, smallest first. */
  const KNN_RING_METRES: seq<real> :=
    [250.0, 1_000.0, 4_000.0, 16_000.0, 64_000.0, 256_000.0, 1_024_000.0]

  /** What the SQL of one rung or of the scan answers, `ORDER BY d, rowid LIMIT K`
      over the rows it reaches, and the largest distance in it. */
  method Ask(dist: nat -> real, reached: seq<nat>) returns (answer: seq<nat>, worst: real)
    ensures IsNearest(dist, answer, Rows(reached), K)
    ensures worst >= 0.0 && (forall x :: x in answer ==> dist(x) <= worst)
    ensures worst == 0.0 || exists x :: x in answer && dist(x) == worst
  {
    SmallestIsNearest(dist, reached, K);
    answer := Smallest(dist, reached, K);
    worst := 0.0;
    for i := 0 to |answer|
      invariant worst >= 0.0
      invariant forall j :: 0 <= j < i ==> dist(answer[j]) <= worst
      invariant worst == 0.0 || exists x :: x in answer && dist(x) == worst
    {
      if dist(answer[i]) > worst { worst := dist(answer[i]); }
    }
  }

  /** Each box covers its ball: a row of the filtered corpus that a box misses is
      further from the centre than the box's radius. */
  ghost predicate BoxesCover(dist: nat -> real, corpus: seq<nat>, boxes: seq<seq<nat>>) {
    && |boxes| == |KNN_RING_METRES|
    && forall r :: 0 <= r < |boxes| ==>
         && Rows(boxes[r]) <= Rows(corpus)
         && forall x :: x in corpus && x !in boxes[r] ==> dist(x) > KNN_RING_METRES[r]
  }

  /** `lite_nearest`: the answer is the exact ranking of the whole filtered
      corpus, whichever rung accepts and whether or not any does. */
  method LiteNearest(dist: nat -> real, corpus: seq<nat>, boxes: seq<seq<nat>>) returns (answer: seq<nat>)
    requires BoxesCover(dist, corpus, boxes)
    ensures IsNearest(dist, answer, Rows(corpus), K)
    ensures answer == Smallest(dist, corpus, K)
  {
    SmallestIsNearest(dist, corpus, K);
    for r := 0 to |KNN_RING_METRES| {
      var rung, worst := Ask(dist, boxes[r]);
      if |rung| >= K && worst <= KNN_RING_METRES[r] {
        AcceptedIsExact(dist, corpus, boxes, r, rung, worst);
        NearestIsUnique(dist, rung, Smallest(dist, corpus, K), Rows(corpus), K);
        return rung;
      }
    }
    var scan, _ := Ask(dist, corpus);
    NearestIsUnique(dist, scan, Smallest(dist, corpus, K), Rows(corpus), K);
    answer := scan;
  }

  /** An accepted rung cannot be beaten from outside its box. */
  lemma AcceptedIsExact(dist: nat -> real, corpus: seq<nat>, boxes: seq<seq<nat>>, r: nat, rung: seq<nat>, worst: real)
    requires BoxesCover(dist, corpus, boxes) && r < |boxes|
    requires IsNearest(dist, rung, Rows(boxes[r]), K) && |rung| >= K
    requires (forall x :: x in rung ==> dist(x) <= worst) && worst <= KNN_RING_METRES[r]
    ensures IsNearest(dist, rung, Rows(corpus), K)
  {
    FurtherRowsDoNotCount(dist, rung, Rows(boxes[r]), Rows(corpus), K);
  }
}
