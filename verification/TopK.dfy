/** The k nearest of some rows by distance, ties broken by ordinal: what a
    brute-force ranking would keep. */
module TopK {
  import opened Text

  /** Row `a` ranks strictly before row `b`. */
  predicate Precedes(dist: nat -> real, a: nat, b: nat) {
    dist(a) < dist(b) || (dist(a) == dist(b) && a < b)
  }

  predicate Ranked(dist: nat -> real, rows: seq<nat>) {
    forall i, j :: 0 <= i < j < |rows| ==> Precedes(dist, rows[i], rows[j])
  }

  function Rows(s: seq<nat>): set<nat> { set x | x in s }

  /** `best` is the ranking of `rows` cut after `k`. */
  ghost predicate IsNearest(dist: nat -> real, best: seq<nat>, rows: set<nat>, k: nat) {
    && Ranked(dist, best)
    && Rows(best) <= rows
    && |best| == Min(k, |rows|)
    && forall x, y :: x in rows && x !in best && y in best ==> Precedes(dist, y, x)
  }

  lemma {:induction false} RankedSize(dist: nat -> real, s: seq<nat>)
    requires Ranked(dist, s)
    ensures |Rows(s)| == |s|
  {
    if s != [] {
      var front, last := s[..|s| - 1], s[|s| - 1];
      RankedSize(dist, front);
      assert Rows(s) == Rows(front) + {last};
      assert last !in front;
    }
  }

  /** The ranking is one list: two cuts of the same rows are equal. */
  lemma NearestIsUnique(dist: nat -> real, a: seq<nat>, b: seq<nat>, rows: set<nat>, k: nat)
    requires IsNearest(dist, a, rows, k) && IsNearest(dist, b, rows, k)
    ensures a == b
  {
    RankedSize(dist, a);
    RankedSize(dist, b);
    assert Rows(a) <= Rows(b) by {
      forall x | x in a ensures x in b {
        if x !in b {
          var y := RowOutside(Rows(b), Rows(a), x);
          assert false;
        }
      }
    }
    SubsetOfSameSize(Rows(a), Rows(b));
    SameRowsSameRanking(dist, a, b);
  }

  lemma RowOutside(big: set<nat>, small: set<nat>, x: nat) returns (y: nat)
    requires |big| == |small| && x in small && x !in big
    ensures y in big && y !in small
  {
    assert !(big <= small) by {
      if big <= small { SubsetSize(big, small - {x}); }
    }
    y :| y in big && y !in small;
  }

  lemma {:induction false} SubsetSize(a: set<nat>, b: set<nat>)
    requires a <= b
    ensures |a| <= |b|
    decreases |a|
  {
    if a != {} {
      var x :| x in a;
      SubsetSize(a - {x}, b - {x});
    }
  }

  lemma SubsetOfSameSize(a: set<nat>, b: set<nat>)
    requires a <= b && |a| == |b|
    ensures a == b
  {
    if x :| x in b && x !in a { SubsetSize(a, b - {x}); }
  }

  lemma {:induction false} SameRowsSameRanking(dist: nat -> real, a: seq<nat>, b: seq<nat>)
    requires Ranked(dist, a) && Ranked(dist, b) && Rows(a) == Rows(b)
    ensures a == b
    decreases |a|
  {
    RankedSize(dist, a);
    RankedSize(dist, b);
    if a != [] {
      var x, y := a[|a| - 1], b[|b| - 1];
      assert x in Rows(b) && y in Rows(a);
      assert x == y;
      var a', b' := a[..|a| - 1], b[..|b| - 1];
      assert Rows(a') == Rows(a) - {x} && Rows(b') == Rows(b) - {x};
      SameRowsSameRanking(dist, a', b');
      assert a == a' + [x] && b == b' + [x];
    }
  }

  /** Cutting a part of the rows to its own k nearest before ranking it with the
      rest loses nothing. */
  lemma CutLosesNothing(dist: nat -> real, cut: seq<nat>, part: set<nat>, more: set<nat>, best: seq<nat>, k: nat)
    requires IsNearest(dist, cut, part, k)
    requires IsNearest(dist, best, Rows(cut) + more, k)
    ensures IsNearest(dist, best, part + more, k)
  {
    RankedSize(dist, cut);
    RankedSize(dist, best);
    SubsetSize(Rows(cut) + more, part + more);
    if |cut| < k {
      SubsetOfSameSize(Rows(cut), part);
    } else {
      SubsetSize(Rows(cut), Rows(cut) + more);
    }
    forall x, y | x in part + more && x !in best && y in best
      ensures Precedes(dist, y, x)
    {
      if x !in Rows(cut) + more {
        assert x in part && x !in cut && |cut| == k;
        if y !in cut {
          var z := RowOutside(Rows(cut), Rows(best), y);
          assert Precedes(dist, y, z) && Precedes(dist, z, x);
        }
      }
    }
  }

  /** Rows further than everything kept do not change a full ranking. */
  lemma FurtherRowsDoNotCount(dist: nat -> real, best: seq<nat>, near: set<nat>, all: set<nat>, k: nat)
    requires near <= all && IsNearest(dist, best, near, k) && |best| == k
    requires forall x, y :: x in all && x !in near && y in best ==> dist(y) < dist(x)
    ensures IsNearest(dist, best, all, k)
  {
    SubsetSize(near, all);
  }

  // ------------------------------------------------------------------ sorting

  function Insert(dist: nat -> real, x: nat, s: seq<nat>): seq<nat> {
    if s == [] then [x]
    else if Precedes(dist, s[0], x) then [s[0]] + Insert(dist, x, s[1..])
    else [x] + s
  }

  /** The stable sort by (distance, ordinal). */
  function Sort(dist: nat -> real, s: seq<nat>): seq<nat> {
    if s == [] then [] else Insert(dist, s[0], Sort(dist, s[1..]))
  }

  /** Neighbouring repeats of a row dropped. */
  function Dedup(s: seq<nat>): seq<nat> {
    if |s| < 2 then s
    else if s[0] == s[1] then Dedup(s[1..])
    else [s[0]] + Dedup(s[1..])
  }

  /** `sort_by`, `dedup_by_key` and `truncate`. */
  function Smallest(dist: nat -> real, s: seq<nat>, k: nat): seq<nat> {
    var d := Dedup(Sort(dist, s));
    if |d| <= k then d else d[..k]
  }

  /** In order, a row next to itself allowed. */
  predicate Ordered(dist: nat -> real, s: seq<nat>) {
    forall i, j :: 0 <= i < j < |s| ==> s[i] == s[j] || Precedes(dist, s[i], s[j])
  }

  lemma {:induction false} InsertKeeps(dist: nat -> real, x: nat, s: seq<nat>)
    requires Ordered(dist, s)
    ensures Ordered(dist, Insert(dist, x, s))
    ensures forall y :: y in Insert(dist, x, s) <==> y == x || y in s
  {
    if s != [] && Precedes(dist, s[0], x) {
      InsertKeeps(dist, x, s[1..]);
      var r := Insert(dist, x, s[1..]);
      assert forall y :: y in s <==> y == s[0] || y in s[1..];
      assert forall i :: 0 <= i < |r| ==> r[i] in r;
    }
  }

  lemma {:induction false} SortKeeps(dist: nat -> real, s: seq<nat>)
    ensures Ordered(dist, Sort(dist, s))
    ensures forall y :: y in Sort(dist, s) <==> y in s
  {
    if s != [] {
      SortKeeps(dist, s[1..]);
      InsertKeeps(dist, s[0], Sort(dist, s[1..]));
      assert forall y :: y in s <==> y == s[0] || y in s[1..];
    }
  }

  lemma {:induction false} DedupKeeps(dist: nat -> real, s: seq<nat>)
    requires Ordered(dist, s)
    ensures Ranked(dist, Dedup(s))
    ensures forall y :: y in Dedup(s) <==> y in s
    ensures s != [] ==> Dedup(s) != [] && Dedup(s)[0] == s[0]
  {
    if |s| >= 2 {
      DedupKeeps(dist, s[1..]);
      assert forall y :: y in s <==> y == s[0] || y in s[1..];
      if s[0] != s[1] {
        var r := Dedup(s[1..]);
        forall j | 0 <= j < |r| ensures Precedes(dist, s[0], r[j]) {
          assert r[j] in s[1..];
          assert r[0] == s[1] && Precedes(dist, s[0], s[1]);
          assert j > 0 ==> Precedes(dist, r[0], r[j]);
        }
      }
    }
  }

  /** Sorting, dropping repeats and cutting gives the k nearest. */
  lemma SmallestIsNearest(dist: nat -> real, s: seq<nat>, k: nat)
    ensures IsNearest(dist, Smallest(dist, s, k), Rows(s), k)
  {
    hide Sort, Dedup;
    SortKeeps(dist, s);
    var d := Dedup(Sort(dist, s));
    DedupKeeps(dist, Sort(dist, s));
    RankedSize(dist, d);
    assert Rows(d) == Rows(s);
    if k < |d| {
      var best := d[..k];
      forall x, y | x in Rows(s) && x !in best && y in best ensures Precedes(dist, y, x) {
        var i :| 0 <= i < |d| && d[i] == x;
        var j :| 0 <= j < k && d[j] == y;
        assert k <= i;
      }
    }
  }

  /** What a ranking is, spelled out: as many rows as there are, up to k, all of them
      rows; nearer ones first, and of two equally near the smaller ordinal; and
      every row left out ranks after all that are kept. */
  lemma NearestSays(dist: nat -> real, best: seq<nat>, rows: set<nat>, k: nat)
    requires IsNearest(dist, best, rows, k)
    ensures |best| == if k < |rows| then k else |rows|
    ensures forall i :: 0 <= i < |best| ==> best[i] in rows
    ensures forall i, j :: 0 <= i < j < |best| ==>
              dist(best[i]) < dist(best[j]) || (dist(best[i]) == dist(best[j]) && best[i] < best[j])
    ensures forall i, x :: 0 <= i < |best| && x in rows && x !in best ==>
              dist(best[i]) < dist(x) || (dist(best[i]) == dist(x) && best[i] < x)
  {
    forall i | 0 <= i < |best| ensures best[i] in rows { assert best[i] in Rows(best); }
    forall i, x | 0 <= i < |best| && x in rows && x !in best ensures Precedes(dist, best[i], x) {
      assert best[i] in best;
    }
  }
}
