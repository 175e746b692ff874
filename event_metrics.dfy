/** The event metrics calculator of `mhw_metrics`: for one detected event
    `ttStart..ttEnd` of one grid cell, its peak, duration, intensities
    relative to the seasonal mean, to the threshold and absolute, and its
    severity category with per-category day counts. */
module EventMetrics {
  import opened Common
  import opened Stats

  datatype Category = Moderate | Strong | Severe | Extreme

  /** `categories = np.array(['Moderate', 'Strong', 'Severe', 'Extreme'])` */
  const Categories: seq<Category> := [Moderate, Strong, Severe, Extreme]

  /** One event's entry in each per-cell list of the source record. */
  datatype HeatwaveEvent = HeatwaveEvent(
    timePeak: nat,
    duration: nat,
    durationModerate: nat,
    durationStrong: nat,
    durationSevere: nat,
    durationExtreme: nat,
    intensityMax: real,
    intensityMean: real,
    intensityVar: real,
    intensityCumulative: real,
    intensityMaxRelThresh: real,
    intensityMeanRelThresh: real,
    intensityVarRelThresh: real,
    intensityCumulativeRelThresh: real,
    intensityMaxAbs: real,
    intensityMeanAbs: real,
    intensityVarAbs: real,
    intensityCumulativeAbs: real,
    category: Category)

  /** Excess over the threshold in units of the threshold's distance from
      the seasonal mean, `(temp - thresh) / (thresh - seas)`: scaled back by
      that distance it is the excess again, and it is positive exactly on
      the days above the threshold. */
  function Normalised(temp: seq<real>, thresh: seq<real>, seas: seq<real>): (norm: seq<real>)
    requires |thresh| == |temp| && |seas| == |temp|
    requires forall d :: 0 <= d < |temp| ==> thresh[d] > seas[d]
    ensures |norm| == |temp|
    ensures forall d :: 0 <= d < |temp| ==> norm[d] * (thresh[d] - seas[d]) == temp[d] - thresh[d]
    ensures forall d :: 0 <= d < |temp| ==> (norm[d] > 0.0 <==> temp[d] > thresh[d])
  {
    var norm := seq(|temp|, d requires 0 <= d < |temp| => (temp[d] - thresh[d]) / (thresh[d] - seas[d]));
    assert forall d :: 0 <= d < |temp| ==> (norm[d] > 0.0 <==> temp[d] > thresh[d]) by {
      forall d | 0 <= d < |temp|
        ensures norm[d] > 0.0 <==> temp[d] > thresh[d]
      {
        QuotientSign(temp[d] - thresh[d], thresh[d] - seas[d]);
      }
    }
    norm
  }

  /** A number that scales `b` to `a` is the quotient `a / b`. */
  lemma QuotientOf(q: real, a: real, b: real)
    requires b > 0.0 && q * b == a
    ensures q == a / b
  {
  }

  /** A quotient by a positive number has the sign of the dividend. */
  lemma QuotientSign(a: real, b: real)
    requires b > 0.0
    ensures a / b > 0.0 <==> a > 0.0
  {
    var q := a / b;
    assert q * b == a;
    if q > 0.0 {
      assert q * b > 0.0 * b;
    } else {
      assert q * b <= 0.0 * b;
    }
  }

  /** `np.floor(1. + norm)`: the severity tier of one day. */
  function Tier(norm: real): int {
    (1.0 + norm).Floor
  }

  function Tiers(norm: seq<real>): (cats: seq<int>)
    ensures |cats| == |norm|
    ensures forall d :: 0 <= d < |norm| ==> cats[d] == Tier(norm[d])
  {
    seq(|norm|, d requires 0 <= d < |norm| => Tier(norm[d]))
  }

  /** The tier of day `d` of the whole series. */
  function TierAt(temp: seq<real>, thresh: seq<real>, seas: seq<real>, d: nat): int
    requires d < |temp| && |thresh| == |temp| && |seas| == |temp|
    requires thresh[d] > seas[d]
  {
    Tier((temp[d] - thresh[d]) / (thresh[d] - seas[d]))
  }

  /** `tt_start + np.argmax(mhw_relThreshNorm)`: the day whose excess over
      the threshold, normalised, is largest (first such day). */
  function PeakCategoryDay(temp: seq<real>, thresh: seq<real>, seas: seq<real>, ttStart: nat, ttEnd: nat): nat
    requires |thresh| == |temp| && |seas| == |temp|
    requires ttStart <= ttEnd < |temp|
    requires forall d :: ttStart <= d <= ttEnd ==> thresh[d] > seas[d]
  {
    ttStart + ArgMax(Normalised(temp[ttStart..ttEnd + 1], thresh[ttStart..ttEnd + 1], seas[ttStart..ttEnd + 1]))
  }

  /** A larger normalised excess never gives a lower tier. */
  lemma TierMonotone(a: real, b: real)
    requires a <= b
    ensures Tier(a) <= Tier(b)
  {
  }

  /** A day above its threshold, itself above the seasonal mean, is at
      least tier 1. */
  lemma TierOfExceedance(temp: real, thresh: real, seas: real)
    requires temp > thresh > seas
    ensures Tier((temp - thresh) / (thresh - seas)) >= 1
  {
    var q := (temp - thresh) / (thresh - seas);
    assert q * (thresh - seas) == temp - thresh;
    assert q > 0.0;
  }

  /** The category of a tier: 1 is moderate, 2 strong, 3 severe, 4 and
      above extreme. Tiers below 1 do not occur within an event (see
      `TierOfExceedance`); they are mapped to moderate. */
  function CategoryOf(tier: int): Category {
    if tier <= 1 then Moderate
    else if tier == 2 then Strong
    else if tier == 3 then Severe
    else Extreme
  }

  /** For every tier an event can have, the category is the source's
      `categories[min(tier, 4) - 1]`. */
  lemma CategoryOfIndex(tier: int)
    requires tier >= 1
    ensures CategoryOf(tier) == Categories[Min(tier, 4) - 1]
  {
  }

  /** `np.sum(cats == k)` */
  function CountEqual(cats: seq<int>, k: int): nat {
    if |cats| == 0 then 0
    else CountEqual(cats[..|cats| - 1], k) + (if cats[|cats| - 1] == k then 1 else 0)
  }

  /** `np.sum(cats >= k)` */
  function CountAtLeast(cats: seq<int>, k: int): nat {
    if |cats| == 0 then 0
    else CountAtLeast(cats[..|cats| - 1], k) + (if cats[|cats| - 1] >= k then 1 else 0)
  }

  /** When every day is at least tier 1, the moderate, strong, severe and
      extreme day counts partition the event's days. */
  lemma {:induction false} CategoryCountsPartition(cats: seq<int>)
    requires forall d :: 0 <= d < |cats| ==> cats[d] >= 1
    ensures CountEqual(cats, 1) + CountEqual(cats, 2) + CountEqual(cats, 3) + CountAtLeast(cats, 4) == |cats|
  {
    if |cats| > 0 {
      CategoryCountsPartition(cats[..|cats| - 1]);
    }
  }

  /** The event `ttStart..ttEnd` lies inside the series and every one of its
      days is above its threshold, which is above the seasonal mean. */
  predicate ValidEvent(temp: seq<real>, thresh: seq<real>, seas: seq<real>, ttStart: nat, ttEnd: nat) {
    && |thresh| == |temp| && |seas| == |temp|
    && ttStart <= ttEnd < |temp|
    && forall d :: ttStart <= d <= ttEnd ==> temp[d] > thresh[d] > seas[d]
  }

  /** `temp - seas` over the event: the excess over the seasonal mean. */
  function RelSeas(temp: seq<real>, seas: seq<real>, ttStart: nat, ttEnd: nat): (r: seq<real>)
    requires |seas| == |temp| && ttStart <= ttEnd < |temp|
    ensures |r| == ttEnd - ttStart + 1
    ensures forall d :: ttStart <= d <= ttEnd ==> r[d - ttStart] == temp[d] - seas[d]
  {
    Minus(temp[ttStart..ttEnd + 1], seas[ttStart..ttEnd + 1])
  }

  /** `tt_start + np.argmax(mhw_relSeas)`: the event's peak day. */
  function PeakDay(temp: seq<real>, seas: seq<real>, ttStart: nat, ttEnd: nat): nat
    requires |seas| == |temp| && ttStart <= ttEnd < |temp|
  {
    ttStart + ArgMax(RelSeas(temp, seas, ttStart, ttEnd))
  }

  /** The peak is the first day of the event with the largest excess over
      the seasonal mean. */
  lemma PeakDayIsFirstMax(temp: seq<real>, seas: seq<real>, ttStart: nat, ttEnd: nat)
    requires |seas| == |temp| && ttStart <= ttEnd < |temp|
    ensures ttStart <= PeakDay(temp, seas, ttStart, ttEnd) <= ttEnd
    ensures forall d :: ttStart <= d <= ttEnd ==>
      temp[d] - seas[d] <= temp[PeakDay(temp, seas, ttStart, ttEnd)] - seas[PeakDay(temp, seas, ttStart, ttEnd)]
    ensures forall d :: ttStart <= d < PeakDay(temp, seas, ttStart, ttEnd) ==>
      temp[d] - seas[d] < temp[PeakDay(temp, seas, ttStart, ttEnd)] - seas[PeakDay(temp, seas, ttStart, ttEnd)]
  {
    var relSeas := RelSeas(temp, seas, ttStart, ttEnd);
    var p := ArgMax(relSeas);
    assert relSeas[p] == temp[ttStart + p] - seas[ttStart + p];
    forall d | ttStart <= d <= ttEnd
      ensures temp[d] - seas[d] <= relSeas[p]
      ensures d < ttStart + p ==> temp[d] - seas[d] < relSeas[p]
    {
      assert relSeas[d - ttStart] == temp[d] - seas[d];
    }
  }

  /** The severity tiers of the event's days. */
  function EventTiers(temp: seq<real>, thresh: seq<real>, seas: seq<real>, ttStart: nat, ttEnd: nat): (cats: seq<int>)
    requires ValidEvent(temp, thresh, seas, ttStart, ttEnd)
    ensures |cats| == ttEnd - ttStart + 1
  {
    Tiers(Normalised(temp[ttStart..ttEnd + 1], thresh[ttStart..ttEnd + 1], seas[ttStart..ttEnd + 1]))
  }

  /** Every day of an event is at least tier 1, so the four category day
      counts partition the event's days. */
  lemma EventDayCounts(temp: seq<real>, thresh: seq<real>, seas: seq<real>, ttStart: nat, ttEnd: nat)
    requires ValidEvent(temp, thresh, seas, ttStart, ttEnd)
    ensures var cats := EventTiers(temp, thresh, seas, ttStart, ttEnd);
      CountEqual(cats, 1) + CountEqual(cats, 2) + CountEqual(cats, 3) + CountAtLeast(cats, 4) == ttEnd - ttStart + 1
  {
    var tempMhw := temp[ttStart..ttEnd + 1];
    var threshMhw := thresh[ttStart..ttEnd + 1];
    var seasMhw := seas[ttStart..ttEnd + 1];
    var cats := EventTiers(temp, thresh, seas, ttStart, ttEnd);
    forall d | 0 <= d < |cats|
      ensures cats[d] >= 1
    {
      TierOfExceedance(tempMhw[d], threshMhw[d], seasMhw[d]);
    }
    CategoryCountsPartition(cats);
  }

  /** Day `d` of the event has the normalised excess of its own values. */
  lemma NormalisedAt(temp: seq<real>, thresh: seq<real>, seas: seq<real>, ttStart: nat, ttEnd: nat, d: nat)
    requires ValidEvent(temp, thresh, seas, ttStart, ttEnd) && ttStart <= d <= ttEnd
    ensures Normalised(temp[ttStart..ttEnd + 1], thresh[ttStart..ttEnd + 1], seas[ttStart..ttEnd + 1])[d - ttStart]
            == (temp[d] - thresh[d]) / (thresh[d] - seas[d])
  {
    var tempMhw, threshMhw, seasMhw := temp[ttStart..ttEnd + 1], thresh[ttStart..ttEnd + 1], seas[ttStart..ttEnd + 1];
    var norm := Normalised(tempMhw, threshMhw, seasMhw);
    assert tempMhw[d - ttStart] == temp[d] && threshMhw[d - ttStart] == thresh[d] && seasMhw[d - ttStart] == seas[d];
    QuotientOf(norm[d - ttStart], temp[d] - thresh[d], thresh[d] - seas[d]);
  }

  /** The day of largest normalised excess is at least tier 1 and reaches
      the highest tier of the event. */
  lemma PeakCategoryDayIsHighest(temp: seq<real>, thresh: seq<real>, seas: seq<real>, ttStart: nat, ttEnd: nat)
    requires ValidEvent(temp, thresh, seas, ttStart, ttEnd)
    ensures ttStart <= PeakCategoryDay(temp, thresh, seas, ttStart, ttEnd) <= ttEnd
    ensures TierAt(temp, thresh, seas, PeakCategoryDay(temp, thresh, seas, ttStart, ttEnd)) >= 1
    ensures forall d :: ttStart <= d <= ttEnd ==>
      TierAt(temp, thresh, seas, d) <= TierAt(temp, thresh, seas, PeakCategoryDay(temp, thresh, seas, ttStart, ttEnd))
  {
    var norm := Normalised(temp[ttStart..ttEnd + 1], thresh[ttStart..ttEnd + 1], seas[ttStart..ttEnd + 1]);
    var q := ArgMax(norm);
    var p := ttStart + q;
    NormalisedAt(temp, thresh, seas, ttStart, ttEnd, p);
    TierOfExceedance(temp[p], thresh[p], seas[p]);
    forall d | ttStart <= d <= ttEnd
      ensures TierAt(temp, thresh, seas, d) <= TierAt(temp, thresh, seas, p)
    {
      NormalisedAt(temp, thresh, seas, ttStart, ttEnd, d);
      TierMonotone(norm[d - ttStart], norm[q]);
    }
  }

  /** The metrics of the event `ttStart..ttEnd` of one cell, computed on the
      slices `[tt_start:tt_end+1]` of the cell's SST, tiled threshold and
      tiled mean. `sqrt` stands for the floating-point square root applied
      to each variance. */
  function EventOf(temp: seq<real>, thresh: seq<real>, seas: seq<real>, ttStart: nat, ttEnd: nat, sqrt: real -> real)
    : HeatwaveEvent
    requires ValidEvent(temp, thresh, seas, ttStart, ttEnd)
  {
    var tempMhw := temp[ttStart..ttEnd + 1];
    var relSeas := RelSeas(temp, seas, ttStart, ttEnd);
    var relThresh := Minus(tempMhw, thresh[ttStart..ttEnd + 1]);
    var ttPeak := ArgMax(relSeas);
    var cats := EventTiers(temp, thresh, seas, ttStart, ttEnd);
    var ttPeakCat := PeakCategoryDay(temp, thresh, seas, ttStart, ttEnd);
    HeatwaveEvent(
      ttStart + ttPeak,
      |relSeas|,
      CountEqual(cats, 1), CountEqual(cats, 2), CountEqual(cats, 3), CountAtLeast(cats, 4),
      relSeas[ttPeak], Mean(relSeas), sqrt(Variance(relSeas)), Sum(relSeas),
      relThresh[ttPeak], Mean(relThresh), sqrt(Variance(relThresh)), Sum(relThresh),
      tempMhw[ttPeak], Mean(tempMhw), sqrt(Variance(tempMhw)), Sum(tempMhw),
      CategoryOf(TierAt(temp, thresh, seas, ttPeakCat)))
  }

  /** Duration and peak: the event lasts `ttEnd - ttStart + 1` days, its peak
      lies inside it and is the first day of largest excess over the seasonal
      mean; the threshold-relative and absolute maxima are read on that same
      day. */
  lemma EventPeak(temp: seq<real>, thresh: seq<real>, seas: seq<real>, ttStart: nat, ttEnd: nat, sqrt: real -> real,
                  ev: HeatwaveEvent)
    requires ValidEvent(temp, thresh, seas, ttStart, ttEnd)
    requires ev == EventOf(temp, thresh, seas, ttStart, ttEnd, sqrt)
    ensures ev.duration == ttEnd - ttStart + 1
    ensures ttStart <= ev.timePeak <= ttEnd
    ensures ev.intensityMax == temp[ev.timePeak] - seas[ev.timePeak]
    ensures forall d :: ttStart <= d <= ttEnd ==> temp[d] - seas[d] <= ev.intensityMax
    ensures forall d :: ttStart <= d < ev.timePeak ==> temp[d] - seas[d] < ev.intensityMax
    ensures ev.intensityMaxRelThresh == temp[ev.timePeak] - thresh[ev.timePeak]
    ensures ev.intensityMaxAbs == temp[ev.timePeak]
  {
    var p := PeakDay(temp, seas, ttStart, ttEnd);
    PeakDayIsFirstMax(temp, seas, ttStart, ttEnd);
    assert ev.timePeak == p;
    assert ev.intensityMax == temp[p] - seas[p];
    var tempMhw := temp[ttStart..ttEnd + 1];
    var relThresh := Minus(tempMhw, thresh[ttStart..ttEnd + 1]);
    assert tempMhw[p - ttStart] == temp[p];
    assert relThresh[p - ttStart] == temp[p] - thresh[p];
  }

  /** Totals: the cumulative intensity is the sum of the daily excesses over
      the seasonal mean, the mean intensity is that sum spread over the
      duration and never exceeds the maximum, and each spread is the square
      root of a non-negative variance. */
  lemma EventTotals(temp: seq<real>, thresh: seq<real>, seas: seq<real>, ttStart: nat, ttEnd: nat, sqrt: real -> real,
                    ev: HeatwaveEvent)
    requires ValidEvent(temp, thresh, seas, ttStart, ttEnd)
    requires ev == EventOf(temp, thresh, seas, ttStart, ttEnd, sqrt)
    ensures ev.intensityCumulative == Sum(RelSeas(temp, seas, ttStart, ttEnd))
    ensures ev.intensityMean == ev.intensityCumulative / (ev.duration as real)
    ensures ev.intensityMean <= ev.intensityMax
    ensures ev.intensityCumulativeAbs == Sum(temp[ttStart..ttEnd + 1])
    ensures ev.intensityVar == sqrt(Variance(RelSeas(temp, seas, ttStart, ttEnd)))
    ensures 0.0 <= Variance(RelSeas(temp, seas, ttStart, ttEnd))
  {
    var relSeas := RelSeas(temp, seas, ttStart, ttEnd);
    var p := ArgMax(relSeas);
    MeanAtMost(relSeas, relSeas[p]);
    VarianceNonNegative(relSeas);
  }

  /** Categories: the moderate, strong, severe and extreme day counts add up
      to the duration; the event's category is that of the day of largest
      normalised excess, which reaches the highest tier of the event. */
  lemma EventCategory(temp: seq<real>, thresh: seq<real>, seas: seq<real>, ttStart: nat, ttEnd: nat, sqrt: real -> real,
                      ev: HeatwaveEvent)
    requires ValidEvent(temp, thresh, seas, ttStart, ttEnd)
    requires ev == EventOf(temp, thresh, seas, ttStart, ttEnd, sqrt)
    ensures ev.durationModerate + ev.durationStrong + ev.durationSevere + ev.durationExtreme == ev.duration
    ensures ttStart <= PeakCategoryDay(temp, thresh, seas, ttStart, ttEnd) <= ttEnd
    ensures TierAt(temp, thresh, seas, PeakCategoryDay(temp, thresh, seas, ttStart, ttEnd)) >= 1
    ensures ev.category == CategoryOf(TierAt(temp, thresh, seas, PeakCategoryDay(temp, thresh, seas, ttStart, ttEnd)))
    ensures forall d :: ttStart <= d <= ttEnd ==>
      TierAt(temp, thresh, seas, d) <= TierAt(temp, thresh, seas, PeakCategoryDay(temp, thresh, seas, ttStart, ttEnd))
  {
    EventDayCounts(temp, thresh, seas, ttStart, ttEnd);
    PeakCategoryDayIsHighest(temp, thresh, seas, ttStart, ttEnd);
  }
}
