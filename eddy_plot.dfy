/** `eddy_plotready`: the split records of one eddy type flattened into
    five plain lists (absolute SST, SST anomaly, amplitude, radius and
    rotational velocity), record after record and point after point. */
module EddyPlot {
  import opened Common
  import opened EddyCensus

  /** The five quantities the plots take from a split record. */
  datatype Quantity = SstAbsolute | SstAnomaly | Amp | Scale | RotVelocity

  /** The array of quantity `q` in record `s`. */
  function Values(s: EddySplit, q: Quantity): (r: seq<real>)
    ensures Plottable(s) ==> |r| >= |s.time|
  {
    match q
    case SstAbsolute => s.sstAbsolute
    case SstAnomaly => s.sstAnomaly
    case Amp => s.amp
    case Scale => s.scale
    case RotVelocity => s.rotVelocity
  }

  /** The loop walks `range(len(record['time']))` and reads the five arrays
      at the same positions. */
  predicate Plottable(s: EddySplit) {
    && |s.sstAbsolute| >= |s.time| && |s.sstAnomaly| >= |s.time| && |s.amp| >= |s.time|
    && |s.scale| >= |s.time| && |s.rotVelocity| >= |s.time|
  }

  /** Number of points of all records. */
  function TotalPoints(ss: seq<EddySplit>): nat {
    if |ss| == 0 then 0 else TotalPoints(ss[..|ss| - 1]) + |ss[|ss| - 1].time|
  }

  /** Position in the flattened lists of the first point of record `ed`. */
  function Offset(ss: seq<EddySplit>, ed: nat): nat
    requires ed <= |ss|
  {
    TotalPoints(ss[..ed])
  }

  /** Quantity `q` of every point of every record, in record order and,
      within a record, in time order. */
  function Flatten(ss: seq<EddySplit>, q: Quantity): seq<real>
    requires forall i :: 0 <= i < |ss| ==> Plottable(ss[i])
  {
    if |ss| == 0 then []
    else
      var last := ss[|ss| - 1];
      Flatten(ss[..|ss| - 1], q) + Values(last, q)[..|last.time|]
  }

  /** Each record contributes one entry per point. */
  lemma {:induction false} FlattenLength(ss: seq<EddySplit>, q: Quantity)
    requires forall i :: 0 <= i < |ss| ==> Plottable(ss[i])
    ensures |Flatten(ss, q)| == TotalPoints(ss)
  {
    if |ss| > 0 {
      FlattenLength(ss[..|ss| - 1], q);
    }
  }

  /** The flattened lists of the first `ed + 1` records are those of the
      first `ed` records followed by record `ed`. */
  lemma FlattenStep(ss: seq<EddySplit>, ed: nat, q: Quantity)
    requires ed < |ss|
    requires forall i :: 0 <= i < |ss| ==> Plottable(ss[i])
    ensures Flatten(ss[..ed + 1], q) == Flatten(ss[..ed], q) + Values(ss[ed], q)[..|ss[ed].time|]
    ensures Offset(ss, ed + 1) == Offset(ss, ed) + |ss[ed].time|
  {
    assert ss[..ed + 1][..ed] == ss[..ed];
  }

  /** Points of earlier records come first: offsets never decrease. */
  lemma {:induction false} OffsetMonotone(ss: seq<EddySplit>, a: nat, b: nat)
    requires a <= b <= |ss|
    ensures Offset(ss, a) <= Offset(ss, b)
  {
    if a < b {
      OffsetMonotone(ss, a, b - 1);
      assert ss[..b][..b - 1] == ss[..b - 1];
    }
  }

  /** Point `x` of record `ed` sits at position `Offset(ss, ed) + x` of
      every flattened list. */
  lemma {:induction false} FlattenAt(ss: seq<EddySplit>, q: Quantity, ed: nat, x: nat)
    requires forall i :: 0 <= i < |ss| ==> Plottable(ss[i])
    requires ed < |ss| && x < |ss[ed].time|
    ensures Offset(ss, ed) + x < |Flatten(ss, q)|
    ensures Flatten(ss, q)[Offset(ss, ed) + x] == Values(ss[ed], q)[x]
  {
    var prefix := ss[..|ss| - 1];
    FlattenLength(prefix, q);
    if ed < |ss| - 1 {
      assert prefix[ed] == ss[ed] && prefix[..ed] == ss[..ed];
      FlattenAt(prefix, q, ed, x);
    }
  }

  /** Every position of the flattened lists holds a point of some record:
      a record whose points span it. */
  lemma {:induction false} FlattenOwner(ss: seq<EddySplit>, p: nat) returns (ed: nat, x: nat)
    requires p < TotalPoints(ss)
    ensures ed < |ss| && x < |ss[ed].time| && p == Offset(ss, ed) + x
  {
    var prefix := ss[..|ss| - 1];
    var last := |ss| - 1;
    assert ss[..last] == prefix && ss[..|ss|] == ss;
    if p < TotalPoints(prefix) {
      ed, x := FlattenOwner(prefix, p);
      assert prefix[..ed] == ss[..ed];
    } else {
      ed, x := last, p - TotalPoints(prefix);
    }
  }

  /** The split records of a census are plottable. */
  lemma SplitsPlottable(ss: seq<EddySplit>, gs: seq<EddyGrid>, climMean: array3<real>, numYears: nat)
    requires climMean.Length0 == DaysInYear
    requires SplitsOf(ss, gs, climMean, numYears)
    ensures forall i :: 0 <= i < |ss| ==> Plottable(ss[i])
  {
  }

  /** The inner loop of `eddy_plotready`: append the five values of every
      point of record `s` to the five lists. */
  method AppendRecord(s: EddySplit, sstAbsolute: seq<real>, sstAnom: seq<real>, amp: seq<real>, scale: seq<real>,
                      rotVelocity: seq<real>)
    returns (sstAbsolute': seq<real>, sstAnom': seq<real>, amp': seq<real>, scale': seq<real>, rotVelocity': seq<real>)
    requires Plottable(s)
    ensures sstAbsolute' == sstAbsolute + Values(s, SstAbsolute)[..|s.time|]
    ensures sstAnom' == sstAnom + Values(s, SstAnomaly)[..|s.time|]
    ensures amp' == amp + Values(s, Amp)[..|s.time|]
    ensures scale' == scale + Values(s, Scale)[..|s.time|]
    ensures rotVelocity' == rotVelocity + Values(s, RotVelocity)[..|s.time|]
  {
    sstAbsolute', sstAnom', amp', scale', rotVelocity' := sstAbsolute, sstAnom, amp, scale, rotVelocity;
    for x := 0 to |s.time|
      invariant sstAbsolute' == sstAbsolute + s.sstAbsolute[..x]
      invariant sstAnom' == sstAnom + s.sstAnomaly[..x]
      invariant amp' == amp + s.amp[..x]
      invariant scale' == scale + s.scale[..x]
      invariant rotVelocity' == rotVelocity + s.rotVelocity[..x]
    {
      sstAbsolute' := sstAbsolute' + [s.sstAbsolute[x]];
      sstAnom' := sstAnom' + [s.sstAnomaly[x]];
      amp' := amp' + [s.amp[x]];
      scale' := scale' + [s.scale[x]];
      rotVelocity' := rotVelocity' + [s.rotVelocity[x]];
      assert s.sstAbsolute[..x + 1] == s.sstAbsolute[..x] + [s.sstAbsolute[x]];
      assert s.sstAnomaly[..x + 1] == s.sstAnomaly[..x] + [s.sstAnomaly[x]];
      assert s.amp[..x + 1] == s.amp[..x] + [s.amp[x]];
      assert s.scale[..x + 1] == s.scale[..x] + [s.scale[x]];
      assert s.rotVelocity[..x + 1] == s.rotVelocity[..x] + [s.rotVelocity[x]];
    }
  }

  /** `eddy_plotready`: the five lists of every point of every record. */
  method EddyPlotready(ss: seq<EddySplit>)
    returns (sstAbsolute: seq<real>, sstAnom: seq<real>, amp: seq<real>, scale: seq<real>, rotVelocity: seq<real>)
    requires forall i :: 0 <= i < |ss| ==> Plottable(ss[i])
    ensures sstAbsolute == Flatten(ss, SstAbsolute) && sstAnom == Flatten(ss, SstAnomaly)
    ensures amp == Flatten(ss, Amp) && scale == Flatten(ss, Scale) && rotVelocity == Flatten(ss, RotVelocity)
  {
    sstAbsolute, sstAnom, amp, scale, rotVelocity := [], [], [], [], [];
    for ed := 0 to |ss|
      invariant sstAbsolute == Flatten(ss[..ed], SstAbsolute) && sstAnom == Flatten(ss[..ed], SstAnomaly)
      invariant amp == Flatten(ss[..ed], Amp) && scale == Flatten(ss[..ed], Scale)
      invariant rotVelocity == Flatten(ss[..ed], RotVelocity)
    {
      sstAbsolute, sstAnom, amp, scale, rotVelocity := AppendRecord(ss[ed], sstAbsolute, sstAnom, amp, scale, rotVelocity);
      FlattenStep(ss, ed, SstAbsolute);
      FlattenStep(ss, ed, SstAnomaly);
      FlattenStep(ss, ed, Amp);
      FlattenStep(ss, ed, Scale);
      FlattenStep(ss, ed, RotVelocity);
    }
    assert ss[..|ss|] == ss;
  }
}
