/** The analyzer's alphanumeric table: a property of scalar values compressed to
    inclusive ranges by one pass over the code points. */
module RangeTable {
  import opened Text

  datatype Range = Range(lo: nat, hi: nat)

  const LIMIT: nat := 0x11_0000

  predicate Covers(ranges: seq<Range>, cp: nat) {
    exists i :: 0 <= i < |ranges| && ranges[i].lo <= cp <= ranges[i].hi
  }

  /** Sorted, non-empty, disjoint and never adjacent. */
  predicate Canonical(ranges: seq<Range>) {
    && (forall i :: 0 <= i < |ranges| ==> ranges[i].lo <= ranges[i].hi)
    && (forall i, j :: 0 <= i < j < |ranges| ==> ranges[i].hi + 1 < ranges[j].lo)
  }

  /** Exactly the members below `end`. */
  ghost predicate Holds(ranges: seq<Range>, member: nat -> bool, end: nat) {
    forall cp: nat :: Covers(ranges, cp) <==> cp < end && IsScalar(cp) && member(cp)
  }

  /** The range-building loop of `main`, for any property of scalar values. */
  method BuildRanges(member: nat -> bool) returns (ranges: seq<Range>)
    ensures Canonical(ranges) && Holds(ranges, member, LIMIT)
    ensures forall i :: 0 <= i < |ranges| ==> !(ranges[i].lo < 0xD800 && 0xDFFF < ranges[i].hi)
  {
    ranges := [];
    for cp := 0 to LIMIT
      invariant Canonical(ranges) && Holds(ranges, member, cp)
      invariant forall i :: 0 <= i < |ranges| ==> ranges[i].hi < cp
    {
      SkipNext(ranges, member, cp);
      if IsScalar(cp) && member(cp) {
        if |ranges| > 0 && ranges[|ranges| - 1].hi + 1 == cp {
          ExtendLast(ranges, member, cp);
          ranges := ranges[|ranges| - 1 := Range(ranges[|ranges| - 1].lo, cp)];
        } else {
          PushNew(ranges, member, cp);
          ranges := ranges + [Range(cp, cp)];
        }
      }
    }
    forall i | 0 <= i < |ranges| ensures !(ranges[i].lo < 0xD800 && 0xDFFF < ranges[i].hi) {
      NoBridge(ranges, member, i);
    }
  }

  lemma NoBridge(ranges: seq<Range>, member: nat -> bool, i: nat)
    requires Holds(ranges, member, LIMIT) && i < |ranges|
    ensures !(ranges[i].lo <= 0xD800 <= ranges[i].hi)
  {
    assert Covers(ranges, 0xD800) ==> IsScalar(0xD800);
  }

  lemma SkipNext(ranges: seq<Range>, member: nat -> bool, cp: nat)
    requires Holds(ranges, member, cp)
    ensures !(IsScalar(cp) && member(cp)) ==> Holds(ranges, member, cp + 1)
  {
  }

  lemma ExtendLast(ranges: seq<Range>, member: nat -> bool, cp: nat)
    requires Canonical(ranges) && Holds(ranges, member, cp) && |ranges| > 0
    requires forall i :: 0 <= i < |ranges| ==> ranges[i].hi < cp
    requires ranges[|ranges| - 1].hi + 1 == cp && IsScalar(cp) && member(cp)
    ensures var out := ranges[|ranges| - 1 := Range(ranges[|ranges| - 1].lo, cp)];
            Canonical(out) && Holds(out, member, cp + 1)
  {
    var n := |ranges| - 1;
    var out := ranges[n := Range(ranges[n].lo, cp)];
    forall x: nat ensures Covers(out, x) <==> Covers(ranges, x) || x == cp {
      if Covers(ranges, x) {
        var i :| 0 <= i < |ranges| && ranges[i].lo <= x <= ranges[i].hi;
        assert out[i].lo <= x <= out[i].hi;
      }
      if x == cp { assert out[n].lo <= x <= out[n].hi; }
      if Covers(out, x) {
        var i :| 0 <= i < |out| && out[i].lo <= x <= out[i].hi;
        assert x == cp || ranges[i].lo <= x <= ranges[i].hi;
      }
    }
  }

  lemma PushNew(ranges: seq<Range>, member: nat -> bool, cp: nat)
    requires Canonical(ranges) && Holds(ranges, member, cp)
    requires forall i :: 0 <= i < |ranges| ==> ranges[i].hi < cp
    requires |ranges| > 0 ==> ranges[|ranges| - 1].hi + 1 != cp
    requires IsScalar(cp) && member(cp)
    ensures Canonical(ranges + [Range(cp, cp)]) && Holds(ranges + [Range(cp, cp)], member, cp + 1)
  {
    var out := ranges + [Range(cp, cp)];
    forall i | 0 <= i < |ranges| ensures ranges[i].hi + 1 < cp {
      assert i < |ranges| - 1 ==> ranges[i].hi + 1 < ranges[|ranges| - 1].lo;
    }
    forall x: nat ensures Covers(out, x) <==> Covers(ranges, x) || x == cp {
      if Covers(ranges, x) {
        var i :| 0 <= i < |ranges| && ranges[i].lo <= x <= ranges[i].hi;
        assert out[i].lo <= x <= out[i].hi;
      }
      if x == cp { assert out[|ranges|].lo <= x <= out[|ranges|].hi; }
    }
  }

  // ------------------------------------------------------------ uniqueness

  lemma HeadsAgree(a: seq<Range>, b: seq<Range>)
    requires Canonical(a) && Canonical(b) && a != []
    requires forall cp: nat :: Covers(a, cp) <==> Covers(b, cp)
    ensures b != [] && a[0] == b[0]
  {
    assert Covers(a, a[0].lo);
    assert Covers(b, a[0].lo);
    assert Covers(b, b[0].lo);
    assert Covers(a, b[0].lo);
    assert a[0].lo == b[0].lo;
    EndsAgree(a, b);
    EndsAgree(b, a);
  }

  lemma FirstCovers(a: seq<Range>, cp: nat)
    requires a != []
    ensures a[0].lo <= cp <= a[0].hi ==> Covers(a, cp)
  {
  }

  lemma EndsAgree(a: seq<Range>, b: seq<Range>)
    requires Canonical(a) && Canonical(b) && a != [] && b != [] && a[0].lo == b[0].lo
    requires forall cp: nat :: Covers(a, cp) <==> Covers(b, cp)
    ensures a[0].hi <= b[0].hi
  {
    var gap: nat := b[0].hi + 1;
    assert !Covers(b, gap) by {
      forall i | 0 <= i < |b| ensures !(b[i].lo <= gap <= b[i].hi) {
        assert i > 0 ==> b[0].hi + 1 < b[i].lo;
      }
    }
    FirstCovers(a, gap);
  }

  lemma CoversTail(a: seq<Range>, cp: nat)
    requires Canonical(a) && a != []
    ensures Covers(a[1..], cp) <==> Covers(a, cp) && cp > a[0].hi
  {
    if Covers(a[1..], cp) {
      var i :| 0 <= i < |a[1..]| && a[1..][i].lo <= cp <= a[1..][i].hi;
      assert a[i + 1].lo <= cp <= a[i + 1].hi;
    }
    if Covers(a, cp) && cp > a[0].hi {
      var i :| 0 <= i < |a| && a[i].lo <= cp <= a[i].hi;
      assert a[1..][i - 1].lo <= cp <= a[1..][i - 1].hi;
    }
  }

  /** There is only one canonical table: two that hold the same code points are
      the same list. */
  lemma {:induction false} CanonicalIsUnique(a: seq<Range>, b: seq<Range>)
    requires Canonical(a) && Canonical(b)
    requires forall cp: nat :: Covers(a, cp) <==> Covers(b, cp)
    ensures a == b
    decreases |a|
  {
    if a == [] {
      if b != [] { HeadsAgree(b, a); }
    } else {
      HeadsAgree(a, b);
      forall cp: nat ensures Covers(a[1..], cp) <==> Covers(b[1..], cp) {
        CoversTail(a, cp);
        CoversTail(b, cp);
      }
      CanonicalIsUnique(a[1..], b[1..]);
      assert a == [a[0]] + a[1..] && b == [b[0]] + b[1..];
    }
  }
}
