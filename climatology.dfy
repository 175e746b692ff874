/** The climatology builder (`clim_calcs`): for every grid cell and day of
    the year, the mean and a percentile of that day's values over the first
    `numYearsClim` years of the SST field. */
module Climatology {
  import opened Common
  import opened Stats

  /** Absolute timestep of day-of-year `i` in baseline year `j`. */
  function TimeIndex(i: nat, j: nat): nat {
    i + DaysInYear * j
  }

  /** Every (day-of-year, year) pair of the baseline draws a timestep of
      the baseline period, and every timestep of that period is drawn by
      exactly one pair: its own day of the year and year number. */
  lemma {:induction false} TimeIndexBijective(d: nat, i: nat, j: nat, numYearsClim: nat)
    requires d < numYearsClim * DaysInYear
    ensures i < DaysInYear && j < numYearsClim ==> TimeIndex(i, j) < numYearsClim * DaysInYear
    ensures d % DaysInYear < DaysInYear && d / DaysInYear < numYearsClim
    ensures TimeIndex(d % DaysInYear, d / DaysInYear) == d
    ensures i < DaysInYear && TimeIndex(i, j) == d ==> i == d % DaysInYear && j == d / DaysInYear
  {
    if i < DaysInYear && j < numYearsClim {
      assert DaysInYear * j + DaysInYear <= DaysInYear * numYearsClim;
    }
    if i < DaysInYear && TimeIndex(i, j) == d {
      assert d == j * 365 + i;
    }
  }

  /** The samples `clim_calcs` gathers for day `i` at cell (x, y): one value
      per baseline year, taken at timesteps i, i+365, i+730, ... */
  ghost function Sample(field: array3<real>, i: nat, x: nat, y: nat, numYearsClim: nat): (s: seq<real>)
    reads field
    requires i < DaysInYear && x < field.Length1 && y < field.Length2
    requires numYearsClim * DaysInYear <= field.Length0
    ensures |s| == numYearsClim
  {
    seq(numYearsClim, j requires 0 <= j < numYearsClim reads field => field[TimeIndex(i, j), x, y])
  }

  /** Builds the table `t_store` of sampled timesteps: row `i` lists the
      timestep of day `i` in each baseline year. Row 0 is filled entry by
      entry; every later row is rewritten as row 0 shifted by `i`. */
  method TimeIndexTable(numYearsClim: nat) returns (tStore: array2<int>)
    ensures fresh(tStore)
    ensures tStore.Length0 == DaysInYear && tStore.Length1 == numYearsClim
    ensures forall i, j :: 0 <= i < DaysInYear && 0 <= j < numYearsClim ==> tStore[i, j] == TimeIndex(i, j)
  {
    tStore := new int[DaysInYear, numYearsClim]((i, j) => 0);
    for i := 0 to DaysInYear
      invariant forall a, b :: 0 <= a < i && 0 <= b < numYearsClim ==> tStore[a, b] == TimeIndex(a, b)
    {
      for j := 0 to numYearsClim
        invariant forall a, b :: 0 <= a < i && 0 <= b < numYearsClim ==> tStore[a, b] == TimeIndex(a, b)
        invariant i == 0 ==> forall b :: 0 <= b < j ==> tStore[0, b] == TimeIndex(0, b)
        invariant i > 0 && j > 0 ==> forall b :: 0 <= b < numYearsClim ==> tStore[i, b] == TimeIndex(i, b)
      {
        if i == 0 {
          tStore[0, j] := j * DaysInYear;
        } else {
          // the whole row: t_store[i][:] = t_store[0] + i
          for k := 0 to numYearsClim
            invariant forall a, b :: 0 <= a < i && 0 <= b < numYearsClim ==> tStore[a, b] == TimeIndex(a, b)
            invariant forall b :: 0 <= b < k ==> tStore[i, b] == TimeIndex(i, b)
          {
            tStore[i, k] := tStore[0, k] + i;
          }
        }
      }
    }
  }

  /** The two climatology tables, in the order `clim_calcs` returns them. */
  datatype ClimTables = ClimTables(thresh: array3<real>, mean: array3<real>)

  /** `EmptyAxis`: `len(field[0,:,0])` indexes an empty time or longitude
      axis. `InsufficientData`: a sampled timestep lies beyond the field.
      Both are the source's IndexError. */
  datatype ClimError = EmptyAxis | InsufficientData

  /** Lexicographic (x, y, i) order in which the four-deep loop visits slots. */
  predicate Before(x': nat, y': nat, i': nat, x: nat, y: nat, i: nat) {
    x' < x || (x' == x && (y' < y || (y' == y && i' < i)))
  }

  /** The tables are filled: slot (i, x, y) holds the percentile and the mean
      of that slot's baseline sample, for every slot visited before (x, y, i). */
  ghost predicate FilledBefore(field: array3<real>, thresh: array3<real>, mean: array3<real>, numYearsClim: nat,
                               pctile: real, percentile: (seq<real>, real) -> real, x: nat, y: nat, i: nat)
    reads field, thresh, mean
    requires numYearsClim >= 1 && numYearsClim * DaysInYear <= field.Length0
    requires thresh.Length0 == DaysInYear && thresh.Length1 == field.Length1 && thresh.Length2 == field.Length2
    requires mean.Length0 == DaysInYear && mean.Length1 == field.Length1 && mean.Length2 == field.Length2
  {
    forall i', x', y' :: 0 <= i' < DaysInYear && 0 <= x' < field.Length1 && 0 <= y' < field.Length2 && Before(x', y', i', x, y, i) ==>
      thresh[i', x', y'] == percentile(Sample(field, i', x', y', numYearsClim), pctile) &&
      mean[i', x', y'] == Mean(Sample(field, i', x', y', numYearsClim))
  }

  /** Moving to the next cell keeps every slot filled so far. */
  lemma FilledNextCell(field: array3<real>, thresh: array3<real>, mean: array3<real>, numYearsClim: nat,
                       pctile: real, percentile: (seq<real>, real) -> real, x: nat, y: nat)
    requires numYearsClim >= 1 && numYearsClim * DaysInYear <= field.Length0
    requires thresh.Length0 == DaysInYear && thresh.Length1 == field.Length1 && thresh.Length2 == field.Length2
    requires mean.Length0 == DaysInYear && mean.Length1 == field.Length1 && mean.Length2 == field.Length2
    requires FilledBefore(field, thresh, mean, numYearsClim, pctile, percentile, x, y, DaysInYear)
    ensures FilledBefore(field, thresh, mean, numYearsClim, pctile, percentile, x, y + 1, 0)
    ensures y + 1 == field.Length2 ==> FilledBefore(field, thresh, mean, numYearsClim, pctile, percentile, x + 1, 0, 0)
  {
  }

  /** One pass of the innermost two loops: gathers the sample of day `i`
      at cell (x, y) through the table and stores its percentile and mean. */
  method FillSlot(field: array3<real>, tStore: array2<int>, thresh: array3<real>, mean: array3<real>, numYearsClim: nat,
                  pctile: real, percentile: (seq<real>, real) -> real, x: nat, y: nat, i: nat)
    requires numYearsClim >= 1 && numYearsClim * DaysInYear <= field.Length0
    requires tStore.Length0 == DaysInYear && tStore.Length1 == numYearsClim
    requires forall a, b :: 0 <= a < DaysInYear && 0 <= b < numYearsClim ==> tStore[a, b] == TimeIndex(a, b)
    requires thresh.Length0 == DaysInYear && thresh.Length1 == field.Length1 && thresh.Length2 == field.Length2
    requires mean.Length0 == DaysInYear && mean.Length1 == field.Length1 && mean.Length2 == field.Length2
    requires thresh != mean && field != thresh && field != mean
    requires i < DaysInYear && x < field.Length1 && y < field.Length2
    requires FilledBefore(field, thresh, mean, numYearsClim, pctile, percentile, x, y, i)
    modifies thresh, mean
    ensures FilledBefore(field, thresh, mean, numYearsClim, pctile, percentile, x, y, i + 1)
    ensures forall i', x', y' ::
      0 <= i' < DaysInYear && 0 <= x' < field.Length1 && 0 <= y' < field.Length2 && (i', x', y') != (i, x, y) ==>
        thresh[i', x', y'] == old(thresh[i', x', y']) && mean[i', x', y'] == old(mean[i', x', y'])
  {
    var sstInt := [];
    for j := 0 to numYearsClim
      invariant sstInt == Sample(field, i, x, y, numYearsClim)[..j]
    {
      sstInt := sstInt + [field[tStore[i, j], x, y]];
    }
    assert sstInt == Sample(field, i, x, y, numYearsClim);
    thresh[i, x, y] := percentile(sstInt, pctile);
    mean[i, x, y] := Mean(sstInt);
    forall i', x', y' | 0 <= i' < DaysInYear && 0 <= x' < field.Length1 && 0 <= y' < field.Length2 && Before(x', y', i', x, y, i + 1)
      ensures thresh[i', x', y'] == percentile(Sample(field, i', x', y', numYearsClim), pctile)
      ensures mean[i', x', y'] == Mean(Sample(field, i', x', y', numYearsClim))
    {
      if (i', x', y') != (i, x, y) {
        assert Before(x', y', i', x, y, i);
        assert old(thresh[i', x', y']) == thresh[i', x', y'];
      }
    }
  }

  /** `clim_calcs`: fails when the time or longitude axis is empty, and,
      on a grid with at least one latitude, when the field holds fewer than
      `numYearsClim` whole years (the source's IndexError). Otherwise returns
      fresh tables shaped like `field[0:365]` whose slot (i, x, y) is the
      `pctile` percentile and the arithmetic mean of the sample of day i at
      cell (x, y); without latitudes there is no slot to fill. */
  method ClimCalcs(field: array3<real>, numYearsClim: nat, pctile: real, percentile: (seq<real>, real) -> real)
    returns (res: Result<ClimTables, ClimError>)
    requires numYearsClim >= 1
    ensures res.Failure? <==>
      field.Length0 == 0 || field.Length2 == 0 || (field.Length1 > 0 && field.Length0 < numYearsClim * DaysInYear)
    ensures res.Failure? ==> (res.error == EmptyAxis <==> field.Length0 == 0 || field.Length2 == 0)
    ensures res.Success? ==>
      var c := res.value;
      fresh(c.thresh) && fresh(c.mean) && c.thresh != c.mean &&
      c.thresh.Length0 == Min(field.Length0, DaysInYear) && c.thresh.Length1 == field.Length1 &&
      c.thresh.Length2 == field.Length2 &&
      c.mean.Length0 == Min(field.Length0, DaysInYear) && c.mean.Length1 == field.Length1 &&
      c.mean.Length2 == field.Length2 &&
      forall i, x, y :: 0 <= i < DaysInYear && 0 <= x < field.Length1 && 0 <= y < field.Length2 ==>
        c.thresh[i, x, y] == percentile(Sample(field, i, x, y, numYearsClim), pctile) &&
        c.mean[i, x, y] == Mean(Sample(field, i, x, y, numYearsClim))
  {
    var rows := if field.Length0 < DaysInYear then field.Length0 else DaysInYear;
    var climThresh := new real[rows, field.Length1, field.Length2]((i, x, y) => 0.0);
    var climMean := new real[rows, field.Length1, field.Length2]((i, x, y) => 0.0);
    var tStore := TimeIndexTable(numYearsClim);
    if field.Length0 == 0 || field.Length2 == 0 {
      return Failure(EmptyAxis);
    }
    if field.Length1 == 0 {
      return Success(ClimTables(climThresh, climMean));
    }
    if field.Length0 < numYearsClim * DaysInYear {
      return Failure(InsufficientData);
    }
    for x := 0 to field.Length1
      modifies climThresh, climMean
      invariant FilledBefore(field, climThresh, climMean, numYearsClim, pctile, percentile, x, 0, 0)
    {
      for y := 0 to field.Length2
        modifies climThresh, climMean
        invariant FilledBefore(field, climThresh, climMean, numYearsClim, pctile, percentile, x, y, 0)
      {
        for i := 0 to DaysInYear
          modifies climThresh, climMean
          invariant FilledBefore(field, climThresh, climMean, numYearsClim, pctile, percentile, x, y, i)
        {
          FillSlot(field, tStore, climThresh, climMean, numYearsClim, pctile, percentile, x, y, i);
        }
        FilledNextCell(field, climThresh, climMean, numYearsClim, pctile, percentile, x, y);
      }
    }
    return Success(ClimTables(climThresh, climMean));
  }
}
