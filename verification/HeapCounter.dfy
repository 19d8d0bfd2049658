/** The live-heap high-water mark: threads share two atomics, and an allocation
    adds to one and raises the other in two separate steps. */
module HeapCounter {

  /** `inFlight` holds the totals of threads between their `fetch_add` on the
      live counter and their `fetch_max` on the peak. */
  datatype Heap = Heap(live: int, peak: int, inFlight: seq<int>)

  /** One atomic step of some thread.  A reallocation that shrinks is an `Add` of
      a negative size. */
  datatype Step = Add(bytes: int) | Raise(thread: nat) | Sub(freed: nat)

  predicate Enabled(s: Heap, step: Step) {
    step.Raise? ==> step.thread < |s.inFlight|
  }

  function Max(a: int, b: int): int { if a < b then b else a }

  function Apply(s: Heap, step: Step): Heap
    requires Enabled(s, step)
  {
    match step
    case Add(bytes) => Heap(s.live + bytes, s.peak, s.inFlight + [s.live + bytes])
    case Raise(i) => Heap(s.live, Max(s.peak, s.inFlight[i]), s.inFlight[..i] + s.inFlight[i + 1..])
    case Sub(freed) => Heap(s.live - freed, s.peak, s.inFlight)
  }

  predicate IsRun(s: Heap, steps: seq<Step>)
    decreases |steps|
  {
    steps == [] || (Enabled(s, steps[0]) && IsRun(Apply(s, steps[0]), steps[1..]))
  }

  function After(s: Heap, steps: seq<Step>): Heap
    requires IsRun(s, steps)
    decreases |steps|
  {
    if steps == [] then s else After(Apply(s, steps[0]), steps[1..])
  }

  /** The largest value the live counter held over a run, its start included. */
  function HeldMax(s: Heap, steps: seq<Step>): int
    requires IsRun(s, steps)
    decreases |steps|
  {
    if steps == [] then s.live else Max(s.live, HeldMax(Apply(s, steps[0]), steps[1..]))
  }

  /** `heap_mark`'s store, of the live value its load returned. */
  function Mark(s: Heap, loaded: int): Heap { s.(peak := loaded) }

  /** `heap_peak_since`. */
  function PeakSince(s: Heap, base: int): nat { Max(s.peak - base, 0) }

  // ------------------------------------------------------------ the invariant

  /** The peak once every thread in flight has raised it. */
  function Settled(peak: int, inFlight: seq<int>): int {
    if inFlight == [] then peak else Max(inFlight[0], Settled(peak, inFlight[1..]))
  }

  lemma {:induction false} SettledAppend(peak: int, a: seq<int>, x: int)
    ensures Settled(peak, a + [x]) == Max(x, Settled(peak, a))
  {
    if a == [] {
      assert a + [x] == [x] && [x][1..] == [];
    } else {
      assert (a + [x])[1..] == a[1..] + [x];
      SettledAppend(peak, a[1..], x);
    }
  }

  lemma {:induction false} SettledRaise(peak: int, a: seq<int>, i: nat)
    requires i < |a|
    ensures Settled(Max(peak, a[i]), a[..i] + a[i + 1..]) == Settled(peak, a)
  {
    if i == 0 {
      assert a[..0] + a[1..] == a[1..];
      SettledPeak(peak, a[0], a[1..]);
    } else {
      assert (a[..i] + a[i + 1..])[1..] == a[1..][..i - 1] + a[1..][i..];
      SettledRaise(peak, a[1..], i - 1);
    }
  }

  lemma {:induction false} SettledPeak(peak: int, x: int, a: seq<int>)
    ensures Settled(Max(peak, x), a) == Max(x, Settled(peak, a))
  {
    if a != [] { SettledPeak(peak, x, a[1..]); }
  }

  /** One step moves the settled peak only as far as the live counter's new value. */
  lemma StepSettles(s: Heap, step: Step)
    requires Enabled(s, step)
    ensures var s' := Apply(s, step);
            Settled(s'.peak, s'.inFlight) ==
            if step.Add? then Max(s'.live, Settled(s.peak, s.inFlight)) else Settled(s.peak, s.inFlight)
  {
    match step
    case Add(bytes) => SettledAppend(s.peak, s.inFlight, s.live + bytes);
    case Raise(i) => SettledRaise(s.peak, s.inFlight, i);
    case Sub(_) =>
  }

  /** Over any interleaving the settled peak is the larger of where it started
      and everything the live counter held. */
  lemma {:induction false} RunSettles(s: Heap, steps: seq<Step>)
    requires IsRun(s, steps) && s.live <= Settled(s.peak, s.inFlight)
    ensures var e := After(s, steps);
            Settled(e.peak, e.inFlight) == Max(Settled(s.peak, s.inFlight), HeldMax(s, steps))
    decreases |steps|
  {
    if steps != [] {
      StepSettles(s, steps[0]);
      RunSettles(Apply(s, steps[0]), steps[1..]);
    }
  }

  // ------------------------------------------------------------ the theorems

  /** What the report needs: over every run after the mark that ends with no add
      in flight, the peak is the larger of the mark and all the counter held. */
  ghost predicate PeakIsExact(s: Heap, loaded: int) {
    forall steps :: IsRun(Mark(s, loaded), steps) && After(Mark(s, loaded), steps).inFlight == [] ==>
      After(Mark(s, loaded), steps).peak == Max(loaded, HeldMax(Mark(s, loaded), steps))
  }

  /** A mark taken with no add in flight, of the live value at the store, gives an
      exact peak over every interleaving that settles. */
  lemma QuietMarkIsExact(s: Heap, steps: seq<Step>)
    requires s.inFlight == [] && IsRun(Mark(s, s.live), steps) && After(Mark(s, s.live), steps).inFlight == []
    ensures After(Mark(s, s.live), steps).peak == Max(s.live, HeldMax(Mark(s, s.live), steps))
    ensures PeakSince(After(Mark(s, s.live), steps), s.live) == HeldMax(Mark(s, s.live), steps) - s.live
  {
    RunSettles(Mark(s, s.live), steps);
    HeldMaxAtLeast(Mark(s, s.live), steps);
  }

  lemma {:induction false} HeldMaxAtLeast(s: Heap, steps: seq<Step>)
    requires IsRun(s, steps)
    ensures s.live <= HeldMax(s, steps)
  {
  }

  /** Every state settles: the threads in flight can raise the peak one by one. */
  lemma {:induction false} Drain(s: Heap) returns (steps: seq<Step>)
    ensures IsRun(s, steps)
    ensures After(s, steps) == Heap(s.live, Settled(s.peak, s.inFlight), [])
    ensures HeldMax(s, steps) == s.live
    decreases |s.inFlight|
  {
    if s.inFlight == [] {
      steps := [];
    } else {
      var next := Apply(s, Raise(0));
      var rest := Drain(next);
      steps := [Raise(0)] + rest;
      assert steps[1..] == rest;
      StepSettles(s, Raise(0));
    }
  }

  /** Exactly when a mark is sound: the adds in flight at the store, and the
      stored value, settle to the larger of the mark and the live counter. */
  lemma PeakIsExactIff(s: Heap, loaded: int)
    ensures PeakIsExact(s, loaded) <==> Settled(loaded, s.inFlight) == Max(loaded, s.live)
  {
    var m := Mark(s, loaded);
    if PeakIsExact(s, loaded) {
      var steps := Drain(m);
      assert After(m, steps).inFlight == [];
    }
    if Settled(loaded, s.inFlight) == Max(loaded, s.live) {
      forall steps | IsRun(m, steps) && After(m, steps).inFlight == []
        ensures After(m, steps).peak == Max(loaded, HeldMax(m, steps))
      {
        RunSettles(m, steps);
        HeldMaxAtLeast(m, steps);
      }
    }
  }

  /** Two ways an unquiet mark goes wrong: an add that finished between the load
      and the store is lost, and one in flight from before it counts too much. */
  lemma UnquietMarks()
    ensures !PeakIsExact(Heap(15, 15, []), 10)
    ensures !PeakIsExact(Heap(10, 10, [99]), 10)
  {
    PeakIsExactIff(Heap(15, 15, []), 10);
    PeakIsExactIff(Heap(10, 10, [99]), 10);
    assert Settled(10, [99]) == 99;
  }

  // ------------------------------------------------------------- conservation

  /** Everything added over a run, shrinking reallocations counted negative. */
  function Added(steps: seq<Step>): int {
    if steps == [] then 0 else (if steps[0].Add? then steps[0].bytes else 0) + Added(steps[1..])
  }

  function FreedIn(steps: seq<Step>): nat {
    if steps == [] then 0 else (if steps[0].Sub? then steps[0].freed else 0) + FreedIn(steps[1..])
  }

  /** The live counter is where it started, plus all that was added, less all that
      was freed. */
  lemma {:induction false} LiveIsConserved(s: Heap, steps: seq<Step>)
    requires IsRun(s, steps)
    ensures After(s, steps).live == s.live + Added(steps) - FreedIn(steps)
    decreases |steps|
  {
    if steps != [] { LiveIsConserved(Apply(s, steps[0]), steps[1..]); }
  }

  lemma {:induction false} RunOfPrefix(s: Heap, steps: seq<Step>, k: nat)
    requires IsRun(s, steps) && k <= |steps|
    ensures IsRun(s, steps[..k])
    decreases |steps|
  {
    if k > 0 {
      RunOfPrefix(Apply(s, steps[0]), steps[1..], k - 1);
      assert steps[..k][1..] == steps[1..][..k - 1];
    }
  }

  /** The largest value held is held somewhere along the run, and none is larger. */
  lemma {:induction false} HeldMaxIsHeld(s: Heap, steps: seq<Step>) returns (at: nat)
    requires IsRun(s, steps)
    ensures at <= |steps| && IsRun(s, steps[..at]) && After(s, steps[..at]).live == HeldMax(s, steps)
    decreases |steps|
  {
    at := 0;
    if steps != [] {
      var s' := Apply(s, steps[0]);
      var k := HeldMaxIsHeld(s', steps[1..]);
      if s.live < HeldMax(s', steps[1..]) {
        at := k + 1;
        assert steps[..at][1..] == steps[1..][..k];
      }
    }
  }

  lemma {:induction false} NoneHeldIsLarger(s: Heap, steps: seq<Step>, k: nat)
    requires IsRun(s, steps) && k <= |steps|
    ensures IsRun(s, steps[..k]) && After(s, steps[..k]).live <= HeldMax(s, steps)
    decreases |steps|
  {
    RunOfPrefix(s, steps, k);
    if k > 0 {
      NoneHeldIsLarger(Apply(s, steps[0]), steps[1..], k - 1);
      assert steps[..k][1..] == steps[1..][..k - 1];
    }
  }
}
