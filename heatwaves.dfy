/** `mhw_metrics`: tiles the one-year climatology over the whole period,
    then for every grid cell, in lat-then-lon order, detects the events
    lasting at least five days and records their metrics. */
module Heatwaves {
  import opened Common
  import opened EventDetection
  import opened EventMetrics

  /** `min_duration = 5`, after Hobday et al. (2016). */
  const MinDuration: nat := 5

  /** `[clim,] * n` reshaped to `n * len(year)` steps: the year repeated `n`
      times, so step `d` reads day `d % len(year)` of the year. */
  function Repeat(year: seq<real>, n: nat): (r: seq<real>)
    ensures |r| == n * |year|
    ensures forall d :: 0 <= d < |r| ==> r[d] == year[d % |year|]
  {
    if n == 0 then []
    else
      BlockOffsets(n - 1, |year|);
      Repeat(year, n - 1) + year
  }

  /** Every step of block `k` sits at its offset from the block's start. */
  lemma BlockOffsets(k: nat, m: nat)
    ensures forall d :: k * m <= d < k * m + m ==> d % m == d - k * m
  {
    forall d | k * m <= d < k * m + m
      ensures d % m == d - k * m
    {
      ModAfterWholeBlocks(d, k, m);
    }
  }

  /** A step inside block `k` of a tiling with blocks of `m` steps sits at
      offset `d - k*m` of its block. */
  lemma ModAfterWholeBlocks(d: int, k: nat, m: nat)
    requires m > 0 && k * m <= d < k * m + m
    ensures d % m == d - k * m
  {
    var q, r := d / m, d % m;
    assert d == q * m + r && 0 <= r < m;
    if q < k {
      MulStep(q, k, m);
    } else if q > k {
      MulStep(k, q, m);
    }
  }

  /** One more whole block: `a < b` gives `a*m + m <= b*m`. */
  lemma {:induction false} MulStep(a: nat, b: nat, m: nat)
    requires a < b
    ensures a * m + m <= b * m
    decreases b - a
  {
    if b == a + 1 {
      assert b * m == a * m + m;
    } else {
      MulStep(a, b - 1, m);
      assert b * m == (b - 1) * m + m;
    }
  }

  /** `field[:, x, y]`: the time series of one grid cell. */
  function Column(field: array3<real>, x: nat, y: nat): (s: seq<real>)
    reads field
    requires x < field.Length1 && y < field.Length2
    ensures |s| == field.Length0
    ensures forall d :: 0 <= d < field.Length0 ==> s[d] == field[d, x, y]
  {
    seq(field.Length0, d requires 0 <= d < field.Length0 reads field => field[d, x, y])
  }

  /** The dictionary `mhw` the source builds for one grid cell. `lat`,
      `lon`, `lat_index` and `lon_index` are set only while processing an
      event, so they stay unset (an empty list) when the cell has none.
      Each list-valued metric is one field of the event records. */
  datatype CellRecord = CellRecord(
    lat: Option<real>,
    lon: Option<real>,
    latIndex: Option<nat>,
    lonIndex: Option<nat>,
    timeStart: seq<real>,
    timeEnd: seq<real>,
    nEvents: nat,
    events: seq<HeatwaveEvent>)

  /** The record of a cell in which no event was found. */
  const EmptyRecord: CellRecord := CellRecord(None, None, None, None, [], [], 0, [])

  /** The runs the metrics loop reads back from the recorded times:
      `np.where(t == time_start[ev])[0][0]` to the same lookup of
      `time_end[ev]`, that is, from the first position of `t` holding the
      start time to the first position holding the end time. */
  function RecordRuns(timeStart: seq<real>, timeEnd: seq<real>, t: seq<real>): (runs: seq<Run>)
    requires |timeEnd| == |timeStart|
    requires forall k :: 0 <= k < |timeStart| ==> timeStart[k] in t && timeEnd[k] in t
    ensures |runs| == |timeStart|
    ensures forall k :: 0 <= k < |timeStart| ==>
      runs[k].first < |t| && t[runs[k].first] == timeStart[k] && runs[k].last < |t| && t[runs[k].last] == timeEnd[k]
    ensures forall k, j :: 0 <= k < |timeStart| && 0 <= j < runs[k].first ==> t[j] != timeStart[k]
    ensures forall k, j :: 0 <= k < |timeStart| && 0 <= j < runs[k].last ==> t[j] != timeEnd[k]
  {
    seq(|timeStart|, k requires 0 <= k < |timeStart| => Run(IndexOf(t, timeStart[k]).value, IndexOf(t, timeEnd[k]).value))
  }

  /** `events` lists, entry by entry, the metrics of the runs of `runs`. */
  ghost predicate ListsMetrics(events: seq<HeatwaveEvent>, temp: seq<real>, thresh: seq<real>, seas: seq<real>,
                               runs: seq<Run>, sqrt: real -> real) {
    && |events| == |runs|
    && forall k :: 0 <= k < |runs| ==>
         ValidEvent(temp, thresh, seas, runs[k].first, runs[k].last) &&
         events[k] == EventOf(temp, thresh, seas, runs[k].first, runs[k].last, sqrt)
  }

  /** Appending the metrics of one more run keeps the lists in step. */
  lemma AppendMetrics(events: seq<HeatwaveEvent>, temp: seq<real>, thresh: seq<real>, seas: seq<real>,
                      runs: seq<Run>, r: Run, sqrt: real -> real)
    requires ListsMetrics(events, temp, thresh, seas, runs, sqrt)
    requires ValidEvent(temp, thresh, seas, r.first, r.last)
    ensures ListsMetrics(events + [EventOf(temp, thresh, seas, r.first, r.last, sqrt)], temp, thresh, seas, runs + [r], sqrt)
  {
    var e := EventOf(temp, thresh, seas, r.first, r.last, sqrt);
    var events', runs' := events + [e], runs + [r];
    forall k | 0 <= k < |runs'|
      ensures ValidEvent(temp, thresh, seas, runs'[k].first, runs'[k].last)
      ensures events'[k] == EventOf(temp, thresh, seas, runs'[k].first, runs'[k].last, sqrt)
    {
      if k < |runs| {
        assert runs'[k] == runs[k] && events'[k] == events[k];
      }
    }
  }

  /** The metrics of a list of runs are determined by the runs. */
  lemma ListsMetricsUnique(e1: seq<HeatwaveEvent>, e2: seq<HeatwaveEvent>, temp: seq<real>, thresh: seq<real>,
                           seas: seq<real>, runs: seq<Run>, sqrt: real -> real)
    requires ListsMetrics(e1, temp, thresh, seas, runs, sqrt)
    requires ListsMetrics(e2, temp, thresh, seas, runs, sqrt)
    ensures e1 == e2
  {
    forall k | 0 <= k < |runs|
      ensures e1[k] == e2[k]
    {
    }
  }

  /** On every day whose SST is above the threshold, the threshold is above
      the seasonal mean, so the normalised excess of an event day is
      finite. */
  predicate ThreshAboveMeanOnExceedance(temp: seq<real>, thresh: seq<real>, seas: seq<real>)
    requires |thresh| == |temp| && |seas| == |temp|
  {
    forall d :: 0 <= d < |temp| && temp[d] > thresh[d] ==> thresh[d] > seas[d]
  }

  /** `rec` is the record of cell (x, y) with SST series `temp`, tiled
      threshold `thresh` and tiled mean `seas`: it lists the start and end
      times of exactly the maximal runs of days strictly above threshold
      that last at least `MinDuration` days, in time order, and for each of
      them the metrics of that run; the cell's coordinates are set exactly
      when there is at least one event. */
  ghost predicate IsCellRecord(rec: CellRecord, temp: seq<real>, thresh: seq<real>, seas: seq<real>, t: seq<real>,
                               x: nat, y: nat, latX: real, lonY: real, sqrt: real -> real)
    requires |thresh| == |temp| && |seas| == |temp|
    requires ThreshAboveMeanOnExceedance(temp, thresh, seas)
  {
    && rec.nEvents == |rec.timeStart| == |rec.timeEnd| == |rec.events|
    && (forall k :: 0 <= k < rec.nEvents ==> rec.timeStart[k] in t && rec.timeEnd[k] in t)
    && var runs := RecordRuns(rec.timeStart, rec.timeEnd, t);
       && IsEventRuns(ExceedanceMask(temp, thresh), runs, MinDuration)
       && ListsMetrics(rec.events, temp, thresh, seas, runs, sqrt)
       && (rec.nEvents == 0 ==> rec.lat == None && rec.lon == None && rec.latIndex == None && rec.lonIndex == None)
       && (rec.nEvents > 0 ==> rec.lat == Some(latX) && rec.lon == Some(lonY) && rec.latIndex == Some(x) && rec.lonIndex == Some(y))
  }

  /** `timeStart` and `timeEnd` hold the times in `t` of the first and
      last day of each run of `runs`, in order. */
  ghost predicate ListsTimes(timeStart: seq<real>, timeEnd: seq<real>, runs: seq<Run>, t: seq<real>) {
    && |timeStart| == |runs| && |timeEnd| == |runs|
    && forall k :: 0 <= k < |runs| ==>
         runs[k].first <= runs[k].last < |t| && timeStart[k] == t[runs[k].first] && timeEnd[k] == t[runs[k].last]
  }

  /** The loop over the labels: skips the runs shorter than `MinDuration`
      and appends the start and end times of the others. */
  method EventTimes(runs: seq<Run>, t: seq<real>) returns (timeStart: seq<real>, timeEnd: seq<real>)
    requires forall k :: 0 <= k < |runs| ==> runs[k].first <= runs[k].last < |t|
    ensures ListsTimes(timeStart, timeEnd, KeepLong(runs, MinDuration), t)
  {
    timeStart, timeEnd := [], [];
    for ev := 0 to |runs|
      invariant ListsTimes(timeStart, timeEnd, KeepLong(runs[..ev], MinDuration), t)
    {
      assert runs[..ev + 1] == runs[..ev] + [runs[ev]];
      assert runs[..ev + 1][..ev] == runs[..ev];
      if Length(runs[ev]) >= MinDuration {
        timeStart := timeStart + [t[runs[ev].first]];
        timeEnd := timeEnd + [t[runs[ev].last]];
      }
    }
    assert runs[..|runs|] == runs;
  }

  /** The metrics loop of one cell: looks each recorded event up again in
      `t` (first match) and appends its metrics; the cell's coordinates are
      written while processing an event. */
  method RecordEvents(temp: seq<real>, thresh: seq<real>, seas: seq<real>, t: seq<real>,
                      timeStart: seq<real>, timeEnd: seq<real>, x: nat, y: nat, latX: real, lonY: real, sqrt: real -> real)
    returns (rec: CellRecord)
    requires |timeEnd| == |timeStart|
    requires forall k :: 0 <= k < |timeStart| ==> timeStart[k] in t && timeEnd[k] in t
    requires forall k :: 0 <= k < |timeStart| ==>
      ValidEvent(temp, thresh, seas, RecordRuns(timeStart, timeEnd, t)[k].first, RecordRuns(timeStart, timeEnd, t)[k].last)
    ensures rec.timeStart == timeStart && rec.timeEnd == timeEnd
    ensures rec.nEvents == |timeStart| && |rec.events| == |timeStart|
    ensures ListsMetrics(rec.events, temp, thresh, seas, RecordRuns(timeStart, timeEnd, t), sqrt)
    ensures |timeStart| == 0 ==> rec.lat == None && rec.lon == None && rec.latIndex == None && rec.lonIndex == None
    ensures |timeStart| > 0 ==> rec.lat == Some(latX) && rec.lon == Some(lonY) && rec.latIndex == Some(x) && rec.lonIndex == Some(y)
  {
    ghost var runs := RecordRuns(timeStart, timeEnd, t);
    var nEvents := |timeStart|;
    var events: seq<HeatwaveEvent> := [];
    var lat, lon, latIndex, lonIndex := None, None, None, None;
    for ev := 0 to nEvents
      invariant ListsMetrics(events, temp, thresh, seas, runs[..ev], sqrt)
      invariant ev == 0 ==> lat == None && lon == None && latIndex == None && lonIndex == None
      invariant ev > 0 ==> lat == Some(latX) && lon == Some(lonY) && latIndex == Some(x) && lonIndex == Some(y)
    {
      var ttStart := IndexOf(t, timeStart[ev]).value;
      var ttEnd := IndexOf(t, timeEnd[ev]).value;
      assert Run(ttStart, ttEnd) == runs[ev];
      assert runs[..ev + 1] == runs[..ev] + [runs[ev]];
      AppendMetrics(events, temp, thresh, seas, runs[..ev], runs[ev], sqrt);
      latIndex := Some(x);
      lonIndex := Some(y);
      lat := Some(latX);
      lon := Some(lonY);
      events := events + [EventOf(temp, thresh, seas, ttStart, ttEnd, sqrt)];
    }
    assert runs[..nEvents] == runs;
    rec := CellRecord(lat, lon, latIndex, lonIndex, timeStart, timeEnd, nEvents, events);
  }

  /** The body of the double loop for one cell: labels the exceedance mask,
      keeps the runs of at least `MinDuration` days as start and end times,
      then computes the metrics of each. */
  method CellHeatwaves(temp: seq<real>, thresh: seq<real>, seas: seq<real>, t: seq<real>,
                       x: nat, y: nat, latX: real, lonY: real, sqrt: real -> real)
    returns (rec: CellRecord)
    requires |thresh| == |temp| && |seas| == |temp| && |t| == |temp| && Distinct(t)
    requires ThreshAboveMeanOnExceedance(temp, thresh, seas)
    ensures IsCellRecord(rec, temp, thresh, seas, t, x, y, latX, lonY, sqrt)
  {
    var mask := ExceedanceMask(temp, thresh);
    var runs := LabelRuns(mask);
    var timeStart, timeEnd := EventTimes(runs, t);
    KeepLongIsEventRuns(mask, runs, MinDuration);
    TimesLookUpRuns(timeStart, timeEnd, KeepLong(runs, MinDuration), t);
    EventRunsValid(temp, thresh, seas, KeepLong(runs, MinDuration));
    rec := RecordEvents(temp, thresh, seas, t, timeStart, timeEnd, x, y, latX, lonY, sqrt);
  }

  /** With distinct times, looking the listed times up in `t` gives the
      runs back. */
  lemma TimesLookUpRuns(timeStart: seq<real>, timeEnd: seq<real>, runs: seq<Run>, t: seq<real>)
    requires ListsTimes(timeStart, timeEnd, runs, t) && Distinct(t)
    ensures forall k :: 0 <= k < |runs| ==> timeStart[k] in t && timeEnd[k] in t
    ensures RecordRuns(timeStart, timeEnd, t) == runs
  {
    forall k | 0 <= k < |runs|
      ensures timeStart[k] in t && timeEnd[k] in t
      ensures IndexOf(t, timeStart[k]) == Some(runs[k].first) && IndexOf(t, timeEnd[k]) == Some(runs[k].last)
    {
      IndexOfDistinct(t, runs[k].first);
      IndexOfDistinct(t, runs[k].last);
    }
  }

  /** Every event run of the exceedance mask is a valid event: each of its
      days is above threshold, and the threshold is above the mean. */
  lemma EventRunsValid(temp: seq<real>, thresh: seq<real>, seas: seq<real>, runs: seq<Run>)
    requires |thresh| == |temp| && |seas| == |temp|
    requires ThreshAboveMeanOnExceedance(temp, thresh, seas)
    requires IsEventRuns(ExceedanceMask(temp, thresh), runs, MinDuration)
    ensures forall k :: 0 <= k < |runs| ==> ValidEvent(temp, thresh, seas, runs[k].first, runs[k].last)
  {
    var mask := ExceedanceMask(temp, thresh);
    forall k | 0 <= k < |runs|
      ensures ValidEvent(temp, thresh, seas, runs[k].first, runs[k].last)
    {
      assert IsMaximalRun(mask, runs[k].first, runs[k].last);
    }
  }

  /** The cell record is fully determined by its inputs: two records that
      both meet the description are equal. */
  lemma CellRecordUnique(r1: CellRecord, r2: CellRecord, temp: seq<real>, thresh: seq<real>, seas: seq<real>,
                         t: seq<real>, x: nat, y: nat, latX: real, lonY: real, sqrt: real -> real)
    requires |thresh| == |temp| && |seas| == |temp|
    requires ThreshAboveMeanOnExceedance(temp, thresh, seas)
    requires IsCellRecord(r1, temp, thresh, seas, t, x, y, latX, lonY, sqrt)
    requires IsCellRecord(r2, temp, thresh, seas, t, x, y, latX, lonY, sqrt)
    ensures r1 == r2
  {
    var runs1 := RecordRuns(r1.timeStart, r1.timeEnd, t);
    var runs2 := RecordRuns(r2.timeStart, r2.timeEnd, t);
    EventRunsUnique(ExceedanceMask(temp, thresh), runs1, runs2, MinDuration);
    RecordTimesUnique(r1.timeStart, r1.timeEnd, r2.timeStart, r2.timeEnd, t);
    ListsMetricsUnique(r1.events, r2.events, temp, thresh, seas, runs1, sqrt);
  }

  /** Times drawn from `t` are recovered from their positions: two lists of
      event times that look up to the same runs are equal. */
  lemma RecordTimesUnique(ts1: seq<real>, te1: seq<real>, ts2: seq<real>, te2: seq<real>, t: seq<real>)
    requires |te1| == |ts1| && |te2| == |ts2|
    requires forall k :: 0 <= k < |ts1| ==> ts1[k] in t && te1[k] in t
    requires forall k :: 0 <= k < |ts2| ==> ts2[k] in t && te2[k] in t
    requires RecordRuns(ts1, te1, t) == RecordRuns(ts2, te2, t)
    ensures ts1 == ts2 && te1 == te2
  {
    var runs := RecordRuns(ts1, te1, t);
    forall k | 0 <= k < |ts1|
      ensures ts1[k] == ts2[k] && te1[k] == te2[k]
    {
      assert runs[k] == RecordRuns(ts2, te2, t)[k];
    }
  }

  /** Every recorded event lasts at least `MinDuration` days, its peak lies
      inside it, and its category day counts add up to its duration. */
  lemma CellEventsLastLong(rec: CellRecord, temp: seq<real>, thresh: seq<real>, seas: seq<real>, t: seq<real>,
                           x: nat, y: nat, latX: real, lonY: real, sqrt: real -> real)
    requires |thresh| == |temp| && |seas| == |temp|
    requires ThreshAboveMeanOnExceedance(temp, thresh, seas)
    requires IsCellRecord(rec, temp, thresh, seas, t, x, y, latX, lonY, sqrt)
    ensures forall k :: 0 <= k < rec.nEvents ==>
      var ev := rec.events[k];
      && ev.duration >= MinDuration
      && IndexOf(t, rec.timeStart[k]).value <= ev.timePeak <= IndexOf(t, rec.timeEnd[k]).value
      && ev.durationModerate + ev.durationStrong + ev.durationSevere + ev.durationExtreme == ev.duration
  {
    var runs := RecordRuns(rec.timeStart, rec.timeEnd, t);
    forall k | 0 <= k < rec.nEvents
      ensures rec.events[k].duration >= MinDuration
      ensures runs[k].first <= rec.events[k].timePeak <= runs[k].last
      ensures rec.events[k].durationModerate + rec.events[k].durationStrong + rec.events[k].durationSevere
              + rec.events[k].durationExtreme == rec.events[k].duration
    {
      EventPeak(temp, thresh, seas, runs[k].first, runs[k].last, sqrt, rec.events[k]);
      EventCategory(temp, thresh, seas, runs[k].first, runs[k].last, sqrt, rec.events[k]);
    }
  }

  /** Position of cell (x, y) in the flat list: lat-major, lon-minor. */
  function CellIndex(x: nat, y: nat, nLon: nat): nat {
    x * nLon + y
  }

  /** Distinct cells have distinct positions. */
  lemma CellIndexInjective(x1: nat, y1: nat, x2: nat, y2: nat, nLon: nat)
    requires y1 < nLon && y2 < nLon
    requires CellIndex(x1, y1, nLon) == CellIndex(x2, y2, nLon)
    ensures x1 == x2 && y1 == y2
  {
    if x1 < x2 {
      MulStep(x1, x2, nLon);
    } else if x2 < x1 {
      MulStep(x2, x1, nLon);
    }
  }

  /** The row after row `x` starts where row `x` ends. */
  lemma CellIndexNextRow(x: nat, nLon: nat)
    ensures CellIndex(x, nLon, nLon) == CellIndex(x + 1, 0, nLon)
  {
    assert (x + 1) * nLon == x * nLon + nLon;
  }

  /** Every cell of the grid has a position inside the list. */
  lemma CellIndexBound(x: nat, y: nat, nLat: nat, nLon: nat)
    requires x < nLat && y < nLon
    ensures CellIndex(x, y, nLon) < nLat * nLon
  {
    MulStep(x, nLat, nLon);
  }

  datatype MetricsError = ShapeMismatch

  /** `rec` is the record `mhw_metrics` owes cell (x, y): the field is
      compared day by day with the climatology of that cell tiled over
      `len(field) // 365` years, and `rec` describes the cell's events. */
  ghost predicate IsCellRecordOf(rec: CellRecord, field: array3<real>, climThresh: array3<real>, climMean: array3<real>,
                                 t: seq<real>, lat: seq<real>, lon: seq<real>, x: nat, y: nat, sqrt: real -> real)
    reads field, climThresh, climMean
    requires x < |lat| && y < |lon|
    requires field.Length1 == |lat| && field.Length2 == |lon|
    requires climThresh.Length1 == |lat| && climThresh.Length2 == |lon|
    requires climMean.Length1 == |lat| && climMean.Length2 == |lon|
  {
    var numYears := field.Length0 / DaysInYear;
    var temp := Column(field, x, y);
    var thresh := Repeat(Column(climThresh, x, y), numYears);
    var seas := Repeat(Column(climMean, x, y), numYears);
    && |thresh| == |temp| && |seas| == |temp|
    && ThreshAboveMeanOnExceedance(temp, thresh, seas)
    && IsCellRecord(rec, temp, thresh, seas, t, x, y, lat[x], lon[y], sqrt)
  }

  /** The body of the double loop for cell (x, y): slices the cell's SST
      series, tiles its climatology over `len(field) // 365` years and
      compares the two. The comparison fails when the lengths differ,
      except that a single-step series broadcasts against the empty tiling
      and finds nothing. */
  method CellOfField(field: array3<real>, climThresh: array3<real>, climMean: array3<real>,
                     lat: seq<real>, lon: seq<real>, t: seq<real>, x: nat, y: nat, sqrt: real -> real)
    returns (res: Result<CellRecord, MetricsError>)
    requires x < |lat| && y < |lon|
    requires field.Length1 == |lat| && field.Length2 == |lon| && |t| == field.Length0 && Distinct(t)
    requires climThresh.Length0 == DaysInYear && climThresh.Length1 == |lat| && climThresh.Length2 == |lon|
    requires climMean.Length0 == DaysInYear && climMean.Length1 == |lat| && climMean.Length2 == |lon|
    requires field.Length0 % DaysInYear == 0 ==> forall d :: 0 <= d < field.Length0 && field[d, x, y] > climThresh[d % DaysInYear, x, y] ==>
      climThresh[d % DaysInYear, x, y] > climMean[d % DaysInYear, x, y]
    ensures res.Failure? <==> field.Length0 % DaysInYear != 0 && field.Length0 != 1
    ensures res.Success? && field.Length0 == 1 ==> res.value == EmptyRecord
    ensures res.Success? && field.Length0 % DaysInYear == 0 ==>
      IsCellRecordOf(res.value, field, climThresh, climMean, t, lat, lon, x, y, sqrt)
  {
    var numYears := field.Length0 / DaysInYear;
    var temp := Column(field, x, y);
    var thresh := Repeat(Column(climThresh, x, y), numYears);
    var seas := Repeat(Column(climMean, x, y), numYears);
    if |temp| != |thresh| {
      if |temp| != 1 {
        return Failure(ShapeMismatch);
      }
      // a single step broadcasts against the empty baseline
      return Success(EmptyRecord);
    }
    forall d | 0 <= d < |temp| && temp[d] > thresh[d]
      ensures thresh[d] > seas[d]
    {
      assert temp[d] == field[d, x, y];
      assert thresh[d] == climThresh[d % DaysInYear, x, y] && seas[d] == climMean[d % DaysInYear, x, y];
    }
    var mhw := CellHeatwaves(temp, thresh, seas, t, x, y, lat[x], lon[y], sqrt);
    return Success(mhw);
  }

  /** Every cell whose position comes before `|recs|` holds its record. */
  ghost predicate RecordsUpTo(recs: seq<CellRecord>, field: array3<real>, climThresh: array3<real>, climMean: array3<real>,
                              t: seq<real>, lat: seq<real>, lon: seq<real>, sqrt: real -> real)
    reads field, climThresh, climMean
    requires field.Length1 == |lat| && field.Length2 == |lon|
    requires climThresh.Length1 == |lat| && climThresh.Length2 == |lon|
    requires climMean.Length1 == |lat| && climMean.Length2 == |lon|
  {
    forall x, y :: 0 <= x < |lat| && 0 <= y < |lon| && CellIndex(x, y, |lon|) < |recs| ==>
      IsCellRecordOf(recs[CellIndex(x, y, |lon|)], field, climThresh, climMean, t, lat, lon, x, y, sqrt)
  }

  /** Appending the record of the next cell in lat-major order extends the
      filled prefix by one. */
  lemma AppendCell(recs: seq<CellRecord>, rec: CellRecord, field: array3<real>, climThresh: array3<real>,
                   climMean: array3<real>, t: seq<real>, lat: seq<real>, lon: seq<real>, x: nat, y: nat, sqrt: real -> real)
    requires x < |lat| && y < |lon| && |recs| == CellIndex(x, y, |lon|)
    requires field.Length1 == |lat| && field.Length2 == |lon|
    requires climThresh.Length1 == |lat| && climThresh.Length2 == |lon|
    requires climMean.Length1 == |lat| && climMean.Length2 == |lon|
    requires RecordsUpTo(recs, field, climThresh, climMean, t, lat, lon, sqrt)
    requires IsCellRecordOf(rec, field, climThresh, climMean, t, lat, lon, x, y, sqrt)
    ensures RecordsUpTo(recs + [rec], field, climThresh, climMean, t, lat, lon, sqrt)
  {
    var recs' := recs + [rec];
    forall x', y' | 0 <= x' < |lat| && 0 <= y' < |lon| && CellIndex(x', y', |lon|) < |recs'|
      ensures IsCellRecordOf(recs'[CellIndex(x', y', |lon|)], field, climThresh, climMean, t, lat, lon, x', y', sqrt)
    {
      if CellIndex(x', y', |lon|) == |recs| {
        CellIndexInjective(x', y', x, y, |lon|);
      } else {
        assert recs'[CellIndex(x', y', |lon|)] == recs[CellIndex(x', y', |lon|)];
      }
    }
  }

  /** `mhw_metrics`. The tiled baseline spans `len(field) // 365` whole
      years; when the field is not whole years long the per-cell
      subtraction cannot broadcast and the source raises, except for a
      single-step field, which broadcasts against the empty baseline and
      yields no events. The result lists one record per cell, cell (x, y) at
      position `x * len(lon) + y`. */
  method MhwMetrics(field: array3<real>, climThresh: array3<real>, climMean: array3<real>,
                    lat: seq<real>, lon: seq<real>, t: seq<real>, sqrt: real -> real)
    returns (res: Result<seq<CellRecord>, MetricsError>)
    requires field.Length1 == |lat| && field.Length2 == |lon| && |t| == field.Length0 && Distinct(t)
    requires climThresh.Length0 == DaysInYear && climThresh.Length1 == |lat| && climThresh.Length2 == |lon|
    requires climMean.Length0 == DaysInYear && climMean.Length1 == |lat| && climMean.Length2 == |lon|
    requires field.Length0 % DaysInYear == 0 ==>
      forall d, x, y :: 0 <= d < field.Length0 && 0 <= x < |lat| && 0 <= y < |lon| && field[d, x, y] > climThresh[d % DaysInYear, x, y] ==>
        climThresh[d % DaysInYear, x, y] > climMean[d % DaysInYear, x, y]
    ensures res.Failure? <==> field.Length0 % DaysInYear != 0 && field.Length0 != 1 && |lat| > 0 && |lon| > 0
    ensures res.Success? ==> |res.value| == |lat| * |lon|
    ensures res.Success? && field.Length0 == 1 ==>
      forall c :: 0 <= c < |res.value| ==> res.value[c] == EmptyRecord
    ensures res.Success? && field.Length0 % DaysInYear == 0 ==>
      forall x, y :: 0 <= x < |lat| && 0 <= y < |lon| ==>
        CellIndex(x, y, |lon|) < |res.value| &&
        IsCellRecordOf(res.value[CellIndex(x, y, |lon|)], field, climThresh, climMean, t, lat, lon, x, y, sqrt)
  {
    var heatwaves: seq<CellRecord> := [];
    for x := 0 to |lat|
      invariant |heatwaves| == CellIndex(x, 0, |lon|)
      invariant x > 0 && |lon| > 0 ==> field.Length0 % DaysInYear == 0 || field.Length0 == 1
      invariant field.Length0 == 1 ==> forall c :: 0 <= c < |heatwaves| ==> heatwaves[c] == EmptyRecord
      invariant field.Length0 % DaysInYear == 0 ==> RecordsUpTo(heatwaves, field, climThresh, climMean, t, lat, lon, sqrt)
    {
      for y := 0 to |lon|
        invariant |heatwaves| == CellIndex(x, y, |lon|)
        invariant (x > 0 && |lon| > 0) || y > 0 ==> field.Length0 % DaysInYear == 0 || field.Length0 == 1
        invariant field.Length0 == 1 ==> forall c :: 0 <= c < |heatwaves| ==> heatwaves[c] == EmptyRecord
        invariant field.Length0 % DaysInYear == 0 ==> RecordsUpTo(heatwaves, field, climThresh, climMean, t, lat, lon, sqrt)
      {
        var mhw := CellOfField(field, climThresh, climMean, lat, lon, t, x, y, sqrt);
        if mhw.Failure? {
          return Failure(mhw.error);
        }
        if field.Length0 % DaysInYear == 0 {
          AppendCell(heatwaves, mhw.value, field, climThresh, climMean, t, lat, lon, x, y, sqrt);
        }
        heatwaves := heatwaves + [mhw.value];
      }
      CellIndexNextRow(x, |lon|);
    }
    forall x', y' | 0 <= x' < |lat| && 0 <= y' < |lon|
      ensures CellIndex(x', y', |lon|) < |heatwaves|
    {
      CellIndexBound(x', y', |lat|, |lon|);
    }
    return Success(heatwaves);
  }
}
