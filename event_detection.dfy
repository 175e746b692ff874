/** The event detector of `mhw_metrics`: the strict exceedance mask of one
    grid cell and its labelling into maximal runs of exceeding days (the
    effect of `scipy.ndimage.label` on a one-dimensional 0/1 series). */
module EventDetection {

  /** Days `first..last` (both inclusive). */
  datatype Run = Run(first: nat, last: nat)

  function Length(r: Run): int {
    r.last - r.first + 1
  }

  /** `exceed = field - thresh`, then positive differences become True and
      the others False: a day exceeds only when its value is strictly above
      its threshold. */
  function ExceedanceMask(temp: seq<real>, thresh: seq<real>): (mask: seq<bool>)
    requires |temp| == |thresh|
    ensures |mask| == |temp|
    ensures forall d :: 0 <= d < |temp| ==> (mask[d] <==> temp[d] > thresh[d])
  {
    seq(|temp|, d requires 0 <= d < |temp| => temp[d] - thresh[d] > 0.0)
  }

  /** `first..last` is a run of exceeding days that cannot be extended on
      either side. */
  ghost predicate IsMaximalRun(mask: seq<bool>, first: int, last: int) {
    && 0 <= first <= last < |mask|
    && (forall d :: first <= d <= last ==> mask[d])
    && (first == 0 || !mask[first - 1])
    && (last == |mask| - 1 || !mask[last + 1])
  }

  /** Runs in strictly increasing time order, none overlapping. */
  ghost predicate Ordered(runs: seq<Run>) {
    forall k, l :: 0 <= k < l < |runs| ==> runs[k].last < runs[l].first
  }

  /** `runs` lists, in increasing time order and without overlap, exactly
      the maximal runs of `mask` that last at least `minDuration` days. */
  ghost predicate IsEventRuns(mask: seq<bool>, runs: seq<Run>, minDuration: nat) {
    && (forall k :: 0 <= k < |runs| ==>
          IsMaximalRun(mask, runs[k].first, runs[k].last) && Length(runs[k]) >= minDuration)
    && Ordered(runs)
    && (forall first, last :: IsMaximalRun(mask, first, last) && last - first + 1 >= minDuration ==>
          Run(first, last) in runs)
  }

  /** A maximal run is determined by its last day. */
  lemma MaximalRunFromEnd(mask: seq<bool>, f1: int, f2: int, last: int)
    requires IsMaximalRun(mask, f1, last) && IsMaximalRun(mask, f2, last)
    ensures f1 == f2
  {
  }

  /** After scanning days `0..i-1`: `runs` lists, in order, exactly the
      maximal runs that end before day `i`. */
  ghost predicate ScannedUpTo(mask: seq<bool>, runs: seq<Run>, i: int) {
    && (forall k :: 0 <= k < |runs| ==> IsMaximalRun(mask, runs[k].first, runs[k].last) && runs[k].last < i)
    && Ordered(runs)
    && (forall first, last :: IsMaximalRun(mask, first, last) && last < i ==> Run(first, last) in runs)
  }

  /** Closing the run `start..i` at its last exceeding day extends the scan
      by one day. */
  lemma CloseRun(mask: seq<bool>, runs: seq<Run>, start: nat, i: nat)
    requires start <= i < |mask|
    requires forall d :: start <= d <= i ==> mask[d]
    requires start == 0 || !mask[start - 1]
    requires i + 1 == |mask| || !mask[i + 1]
    requires ScannedUpTo(mask, runs, i)
    requires forall k :: 0 <= k < |runs| ==> runs[k].last < start
    ensures ScannedUpTo(mask, runs + [Run(start, i)], i + 1)
  {
    var runs' := runs + [Run(start, i)];
    forall first, last | IsMaximalRun(mask, first, last) && last < i + 1
      ensures Run(first, last) in runs'
    {
      if last == i {
        MaximalRunFromEnd(mask, first, start, i);
        assert runs'[|runs|] == Run(first, last);
      } else {
        assert Run(first, last) in runs;
      }
    }
  }

  /** A day that does not close a run leaves the scan's findings valid one
      day further. */
  lemma ExtendScan(mask: seq<bool>, runs: seq<Run>, i: nat)
    requires i < |mask|
    requires !mask[i] || (i + 1 < |mask| && mask[i + 1])
    requires ScannedUpTo(mask, runs, i)
    ensures ScannedUpTo(mask, runs, i + 1)
  {
    forall first, last | IsMaximalRun(mask, first, last) && last < i + 1
      ensures Run(first, last) in runs
    {
      assert last != i;
    }
  }

  /** `ndimage.label` on the 0/1 mask: a single left-to-right scan that opens
      a run at the first exceeding day after a non-exceeding one and closes
      it at its last exceeding day; label numbers follow time order. The
      result is every maximal run (minimum duration 0). */
  method LabelRuns(mask: seq<bool>) returns (runs: seq<Run>)
    ensures IsEventRuns(mask, runs, 0)
  {
    runs := [];
    var inRun := false;
    var start := 0;
    for i := 0 to |mask|
      invariant inRun ==> start < i < |mask| && mask[i] && (start == 0 || !mask[start - 1])
      invariant inRun ==> forall d :: start <= d < i ==> mask[d]
      invariant !inRun && i < |mask| && mask[i] ==> i == 0 || !mask[i - 1]
      invariant inRun ==> forall k :: 0 <= k < |runs| ==> runs[k].last < start
      invariant ScannedUpTo(mask, runs, i)
    {
      if mask[i] {
        if !inRun {
          start := i;
          inRun := true;
        }
        if i + 1 == |mask| || !mask[i + 1] {
          CloseRun(mask, runs, start, i);
          runs := runs + [Run(start, i)];
          inRun := false;
        } else {
          ExtendScan(mask, runs, i);
        }
      } else {
        ExtendScan(mask, runs, i);
      }
    }
  }

  /** The runs of `runs` lasting at least `minDuration` days, in order. */
  function KeepLong(runs: seq<Run>, minDuration: nat): (kept: seq<Run>)
    ensures |kept| <= |runs|
    ensures forall r :: r in kept <==> r in runs && Length(r) >= minDuration
  {
    if |runs| == 0 then []
    else
      var front := KeepLong(runs[..|runs| - 1], minDuration);
      var r := runs[|runs| - 1];
      if Length(r) < minDuration then front else front + [r]
  }

  /** A subsequence keeps the order: elements of `KeepLong(runs)` appear in
      the same relative order as in `runs`. */
  lemma {:induction false} KeepLongOrdered(runs: seq<Run>, minDuration: nat)
    requires Ordered(runs)
    ensures Ordered(KeepLong(runs, minDuration))
  {
    if |runs| > 0 {
      var init := runs[..|runs| - 1];
      KeepLongOrdered(init, minDuration);
      var front := KeepLong(init, minDuration);
      forall k | 0 <= k < |front|
        ensures front[k].last < runs[|runs| - 1].first
      {
        assert front[k] in init;
        var m :| 0 <= m < |init| && init[m] == front[k];
        assert runs[m] == init[m];
      }
      var r := runs[|runs| - 1];
      if Length(r) >= minDuration {
        var kept := front + [r];
        assert KeepLong(runs, minDuration) == kept;
        forall k, l | 0 <= k < l < |kept|
          ensures kept[k].last < kept[l].first
        {
          if l < |front| {
            assert kept[k] == front[k] && kept[l] == front[l];
            assert front[k].last < front[l].first;
          } else {
            assert kept[k] == front[k] && kept[l] == r;
            assert front[k].last < r.first;
          }
        }
      }
    }
  }

  /** Dropping the short runs of a labelling leaves exactly the events. */
  lemma KeepLongIsEventRuns(mask: seq<bool>, runs: seq<Run>, minDuration: nat)
    requires IsEventRuns(mask, runs, 0)
    ensures IsEventRuns(mask, KeepLong(runs, minDuration), minDuration)
  {
    KeepLongOrdered(runs, minDuration);
    var kept := KeepLong(runs, minDuration);
    forall k | 0 <= k < |kept|
      ensures IsMaximalRun(mask, kept[k].first, kept[k].last) && Length(kept[k]) >= minDuration
    {
      assert kept[k] in runs;
    }
  }

  /** The events are fully determined by the mask: two sequences that both
      list exactly the long maximal runs in time order are equal. */
  lemma {:induction false} EventRunsUnique(mask: seq<bool>, r1: seq<Run>, r2: seq<Run>, minDuration: nat)
    requires IsEventRuns(mask, r1, minDuration) && IsEventRuns(mask, r2, minDuration)
    ensures r1 == r2
  {
    SortedSameElements(r1, r2);
  }

  /** Two strictly ordered run lists with the same elements are equal. */
  lemma {:induction false} SortedSameElements(r1: seq<Run>, r2: seq<Run>)
    requires Ordered(r1) && Ordered(r2)
    requires forall k :: 0 <= k < |r1| ==> r1[k].first <= r1[k].last
    requires forall r :: r in r1 <==> r in r2
    ensures r1 == r2
    decreases |r1| + |r2|
  {
    assert |r1| > 0 ==> r1[0] in r2;
    assert |r2| > 0 ==> r2[0] in r1;
    if |r1| == 0 || |r2| == 0 {
    } else {
      var a, b := r1[0], r2[0];
      assert a in r2 && b in r1;
      var i :| 0 <= i < |r2| && r2[i] == a;
      var j :| 0 <= j < |r1| && r1[j] == b;
      assert i > 0 ==> b.last < a.first;
      assert j > 0 ==> a.last < b.first;
      assert a == b;
      forall r
        ensures r in r1[1..] <==> r in r2[1..]
      {
        if r in r1[1..] {
          var k :| 0 <= k < |r1[1..]| && r1[1..][k] == r;
          assert r1[k + 1] == r && r.first > a.last;
          assert r in r2 && r != b;
          var m :| 0 <= m < |r2| && r2[m] == r;
          assert m != 0 && r2[1..][m - 1] == r;
        }
        if r in r2[1..] {
          var k :| 0 <= k < |r2[1..]| && r2[1..][k] == r;
          assert r2[k + 1] == r && r.first > b.last;
          assert r in r1 && r != a;
          var m :| 0 <= m < |r1| && r1[m] == r;
          assert m != 0 && r1[1..][m - 1] == r;
        }
      }
      SortedSameElements(r1[1..], r2[1..]);
    }
  }
}
