/** The eddy census (`eddy_census_calc`): every tracked eddy is snapped to
    the SST grid point by point, enriched with the SST under it, its type
    code, its rotational velocity and, from the second point on, its
    translation speed and nonlinearity; the enriched eddies are then split
    into anticyclonic and cyclonic lists with SST anomalies against the
    tiled climatological mean. */
module EddyCensus {
  import opened Common

  /** The per-eddy dictionary produced by the eddy tracker: per-point
      positions, time indices, amplitudes and radii, one age for the whole
      track and a type name. */
  datatype EddyTrack = EddyTrack(
    lon: seq<real>,
    lat: seq<real>,
    time: seq<int>,
    age: int,
    amp: seq<real>,
    scale: seq<real>,
    kind: string)

  /** The census walks `range(len(track['lon']))` and reads the other
      per-point lists at the same positions. */
  predicate TrackShaped(tr: EddyTrack) {
    |tr.lat| >= |tr.lon| && |tr.time| >= |tr.lon| && |tr.amp| >= |tr.lon| && |tr.scale| >= |tr.lon|
  }

  /** The floating-point physics of the census, kept uninterpreted: the
      rotational velocity from latitude (through the Coriolis term),
      amplitude and radius; the translation speed between two consecutive
      points (great-circle distance over a day); and the division `U / c`. */
  datatype Numerics = Numerics(
    rotVelocity: (real, real, real) -> real,
    translationSpeed: (real, real, real, real) -> real,
    ratio: (real, real) -> real)

  /** The exceptions the census can raise: `int(1 / spat_res)` or
      `gridcell_round` dividing by zero, a snapped coordinate missing from
      `lon`/`lat` (`list.index`), a time outside the field or the tiled
      climatology, and `type[0]` of a track without points. */
  datatype EddyError = ZeroDivision | LonOffGrid | LatOffGrid | TimeOutOfRange | EmptyTrack

  /** Python's `int()` on a float: truncation toward zero. */
  function Trunc(r: real): (i: int)
    ensures 0.0 <= r ==> i as real <= r < i as real + 1.0
    ensures r < 0.0 ==> i as real - 1.0 < r <= i as real
  {
    if r >= 0.0 then r.Floor else -((-r).Floor)
  }

  /** `res_factor = int(1 / spat_res)`: grid cells per degree. */
  function ResFactor(spatRes: real): (res: Result<int, EddyError>)
    ensures res.Failure? <==> spatRes == 0.0
    ensures res.Failure? ==> res.error == ZeroDivision
    ensures 0.0 < spatRes ==> (res.value as real) * spatRes <= 1.0 < (res.value as real) * spatRes + spatRes
  {
    if spatRes == 0.0 then Failure(ZeroDivision)
    else if spatRes < 0.0 then Success(Trunc(1.0 / spatRes))
    else
      ReciprocalTruncBounds(spatRes);
      Success(Trunc(1.0 / spatRes))
  }

  /** `k = int(1 / s)` for a positive `s` is the number of whole steps of
      `s` in one: `k * s <= 1 < (k + 1) * s`. */
  lemma ReciprocalTruncBounds(s: real)
    requires 0.0 < s
    ensures (Trunc(1.0 / s) as real) * s <= 1.0 < (Trunc(1.0 / s) as real) * s + s
  {
    var q := 1.0 / s;
    var k := Trunc(q);
    assert q * s == 1.0;
    assert q > 0.0 by {
      if q <= 0.0 {
        MulMonotone(q, 0.0, s);
      }
    }
    assert k as real <= q < k as real + 1.0;
    ScaleBounds(k as real, q, s);
  }

  /** Scaling `lo <= q < lo + 1` by `s`, where `q * s == 1`. */
  lemma ScaleBounds(lo: real, q: real, s: real)
    requires s > 0.0 && lo <= q < lo + 1.0 && q * s == 1.0
    ensures lo * s <= 1.0 < lo * s + s
  {
    MulMonotone(lo, q, s);
    MulMonotone(q, lo + 1.0, s);
    assert (lo + 1.0) * s == lo * s + s;
  }

  /** For a resolution of at most one degree there is at least one grid
      cell per degree. */
  lemma ResFactorBounds(spatRes: real)
    requires 0.0 < spatRes <= 1.0
    ensures ResFactor(spatRes).Success?
    ensures ResFactor(spatRes).value >= 1
    ensures (ResFactor(spatRes).value as real) * spatRes <= 1.0 < (ResFactor(spatRes).value as real + 1.0) * spatRes
  {
    var k := ResFactor(spatRes).value;
    assert k >= 1 by {
      if k < 1 {
        MulMonotone(k as real + 1.0, 1.0, spatRes);
      }
    }
  }

  /** Multiplying by a positive factor keeps the order. */
  lemma MulMonotone(a: real, b: real, c: real)
    requires a <= b && c > 0.0
    ensures a * c <= b * c
    ensures a < b ==> a * c < b * c
  {
  }

  /** `gridcell_round(x) = math.floor(x * res_factor) / res_factor`: the
      coordinate snapped down to the grid. */
  function GridcellRound(x: real, k: int): real
    requires k != 0
  {
    ((x * k as real).Floor as real) / (k as real)
  }

  /** With a positive factor the snapped coordinate is the lower corner of
      the grid cell holding `x`: `r <= x < r + 1/k`. */
  lemma GridcellRoundBounds(x: real, k: int)
    requires k > 0
    ensures GridcellRound(x, k) <= x < GridcellRound(x, k) + 1.0 / (k as real)
  {
    var f := (x * k as real).Floor as real;
    var kr := k as real;
    assert f <= x * kr < f + 1.0;
    DivMonotone(f, x * kr, kr);
    DivMonotone(x * kr, f + 1.0, kr);
    assert (x * kr) / kr == x;
    assert (f + 1.0) / kr == f / kr + 1.0 / kr;
  }

  /** Dividing by a positive number keeps the order. */
  lemma DivMonotone(a: real, b: real, c: real)
    requires a <= b && c > 0.0
    ensures a / c <= b / c
    ensures a < b ==> a / c < b / c
  {
    var inv := 1.0 / c;
    assert inv * c == 1.0;
    assert inv > 0.0;
    MulMonotone(a, b, inv);
    assert a / c == a * inv && b / c == b * inv;
  }

  /** A coordinate that is a whole multiple of the grid spacing snaps to
      itself. */
  lemma GridcellRoundOnGrid(r: real, k: int, f: int)
    requires k != 0
    requires r * (k as real) == f as real
    ensures GridcellRound(r, k) == (f as real) / (k as real)
  {
    var v := r * (k as real);
    assert v.Floor == f;
  }

  /** Snapping is idempotent: a grid value stays where it is. */
  lemma GridcellRoundIdempotent(x: real, k: int)
    requires k != 0
    ensures GridcellRound(GridcellRound(x, k), k) == GridcellRound(x, k)
  {
    var f := (x * k as real).Floor;
    var r := GridcellRound(x, k);
    assert r == (f as real) / (k as real);
    assert r * (k as real) == f as real;
    GridcellRoundOnGrid(r, k, f);
  }

  /** `type` entry: 1 for an anticyclonic eddy, 0 for a cyclonic one; any
      other name leaves the zero the array was created with. */
  function TypeCode(kind: string): int {
    if kind == "anticyclonic" then 1
    else if kind == "cyclonic" then 0
    else 0
  }

  /** Every type entry is 0 or 1, and it is 1 exactly for an anticyclonic
      eddy. */
  lemma TypeCodeBinary(kind: string)
    ensures TypeCode(kind) == 0 || TypeCode(kind) == 1
    ensures TypeCode(kind) == 1 <==> kind == "anticyclonic"
  {
  }

  /** The per-eddy dictionary `eddies_grid`: thirteen arrays of the track's
      length. */
  datatype EddyGrid = EddyGrid(
    lonIndex: seq<nat>,
    latIndex: seq<nat>,
    lon: seq<real>,
    lat: seq<real>,
    time: seq<int>,
    sst: seq<real>,
    age: seq<int>,
    kind: seq<int>,
    amp: seq<real>,
    scale: seq<real>,
    rotVelocity: seq<real>,
    translationSpeed: seq<real>,
    nonlin: seq<real>)

  /** All thirteen arrays have `n` entries. */
  predicate Shaped(g: EddyGrid, n: nat) {
    && |g.lonIndex| == n && |g.latIndex| == n && |g.lon| == n && |g.lat| == n && |g.time| == n
    && |g.sst| == n && |g.age| == n && |g.kind| == n && |g.amp| == n && |g.scale| == n
    && |g.rotVelocity| == n && |g.translationSpeed| == n && |g.nonlin| == n
  }

  /** The exception point `x` of a track raises, if any, in the order the
      source meets them: snapping (zero factor), the longitude lookup, the
      latitude lookup, then the SST read at `time - 1`. */
  function PointError(tr: EddyTrack, x: nat, nTime: nat, lon: seq<real>, lat: seq<real>, k: int): Option<EddyError>
    requires TrackShaped(tr) && x < |tr.lon|
  {
    if k == 0 then Some(ZeroDivision)
    else if IndexOf(lon, GridcellRound(tr.lon[x], k)).None? then Some(LonOffGrid)
    else if IndexOf(lat, GridcellRound(tr.lat[x], k)).None? then Some(LatOffGrid)
    else if PyIndex(tr.time[x] - 1, nTime).None? then Some(TimeOutOfRange)
    else None
  }

  /** The exception of each point of the track. */
  function PointErrors(tr: EddyTrack, nTime: nat, lon: seq<real>, lat: seq<real>, k: int): (errs: seq<Option<EddyError>>)
    requires TrackShaped(tr)
    ensures |errs| == |tr.lon|
    ensures forall x :: 0 <= x < |tr.lon| ==> errs[x] == PointError(tr, x, nTime, lon, lat, k)
  {
    seq(|tr.lon|, x requires 0 <= x < |tr.lon| => PointError(tr, x, nTime, lon, lat, k))
  }

  /** The exception enriching the track raises: that of its first failing
      point. */
  function EnrichError(tr: EddyTrack, nTime: nat, lon: seq<real>, lat: seq<real>, k: int): Option<EddyError>
    requires TrackShaped(tr)
  {
    FirstSome(PointErrors(tr, nTime, lon, lat, k))
  }

  /** The first loop's writes for point `x`: the first grid positions equal
      to the snapped coordinates, the copied track values, the SST at step
      `time - 1` (negative steps counting from the end) under the grid
      cell, the type code and the rotational velocity. */
  ghost predicate PointFilled(g: EddyGrid, tr: EddyTrack, field: array3<real>, lon: seq<real>, lat: seq<real>, k: int,
                              num: Numerics, x: nat)
    reads field
    requires TrackShaped(tr) && x < |tr.lon| && Shaped(g, |tr.lon|)
    requires field.Length1 == |lat| && field.Length2 == |lon|
  {
    && k != 0
    && IndexOf(lon, GridcellRound(tr.lon[x], k)) == Some(g.lonIndex[x])
    && IndexOf(lat, GridcellRound(tr.lat[x], k)) == Some(g.latIndex[x])
    && g.lon[x] == tr.lon[x] && g.lat[x] == tr.lat[x]
    && g.time[x] == tr.time[x] && g.age[x] == tr.age
    && g.amp[x] == tr.amp[x] && g.scale[x] == tr.scale[x]
    && PyIndex(tr.time[x] - 1, field.Length0).Some?
    && g.sst[x] == field[PyIndex(tr.time[x] - 1, field.Length0).value, g.latIndex[x], g.lonIndex[x]]
    && g.kind[x] == TypeCode(tr.kind)
    && g.rotVelocity[x] == num.rotVelocity(tr.lat[x], tr.amp[x], tr.scale[x])
  }

  /** The second loop's writes for point `x`: nothing at point 0 nor for an
      eddy younger than two days; otherwise the translation speed from the
      previous point and the nonlinearity, which divides the rotational
      velocity left over from the LAST point of the first loop by that
      speed. */
  ghost predicate SpeedFilled(g: EddyGrid, tr: EddyTrack, num: Numerics, x: nat)
    requires TrackShaped(tr) && x < |tr.lon| && Shaped(g, |tr.lon|)
  {
    if x == 0 || tr.age < 2 then g.translationSpeed[x] == 0.0 && g.nonlin[x] == 0.0
    else
      && g.translationSpeed[x] == num.translationSpeed(tr.lat[x - 1], tr.lon[x - 1], tr.lat[x], tr.lon[x])
      && g.nonlin[x] == num.ratio(g.rotVelocity[|tr.lon| - 1], g.translationSpeed[x])
  }

  /** Whether point `x` is filled depends only on the entries at `x`. */
  lemma PointFilledFrame(g: EddyGrid, g': EddyGrid, tr: EddyTrack, field: array3<real>, lon: seq<real>, lat: seq<real>,
                         k: int, num: Numerics, x: nat)
    requires TrackShaped(tr) && x < |tr.lon| && Shaped(g, |tr.lon|) && Shaped(g', |tr.lon|)
    requires field.Length1 == |lat| && field.Length2 == |lon|
    requires g'.lonIndex[x] == g.lonIndex[x] && g'.latIndex[x] == g.latIndex[x]
    requires g'.lon[x] == g.lon[x] && g'.lat[x] == g.lat[x] && g'.time[x] == g.time[x] && g'.age[x] == g.age[x]
    requires g'.amp[x] == g.amp[x] && g'.scale[x] == g.scale[x] && g'.sst[x] == g.sst[x]
    requires g'.kind[x] == g.kind[x] && g'.rotVelocity[x] == g.rotVelocity[x]
    requires PointFilled(g, tr, field, lon, lat, k, num, x)
    ensures PointFilled(g', tr, field, lon, lat, k, num, x)
  {
  }

  /** Whether point `x` has its speeds depends only on the entries at `x`
      and on the rotational velocity of the last point. */
  lemma SpeedFilledFrame(g: EddyGrid, g': EddyGrid, tr: EddyTrack, num: Numerics, x: nat)
    requires TrackShaped(tr) && x < |tr.lon| && Shaped(g, |tr.lon|) && Shaped(g', |tr.lon|)
    requires g'.translationSpeed[x] == g.translationSpeed[x] && g'.nonlin[x] == g.nonlin[x]
    requires g'.rotVelocity[|tr.lon| - 1] == g.rotVelocity[|tr.lon| - 1]
    requires SpeedFilled(g, tr, num, x)
    ensures SpeedFilled(g', tr, num, x)
  {
  }

  /** `g` is the enriched form of the track. */
  ghost predicate IsEnriched(g: EddyGrid, tr: EddyTrack, field: array3<real>, lon: seq<real>, lat: seq<real>, k: int,
                             num: Numerics)
    reads field
    requires TrackShaped(tr)
    requires field.Length1 == |lat| && field.Length2 == |lon|
  {
    && Shaped(g, |tr.lon|)
    && forall x :: 0 <= x < |tr.lon| ==>
         PointFilled(g, tr, field, lon, lat, k, num, x) && SpeedFilled(g, tr, num, x)
  }

  /** All points before `x` are free of errors and filled. */
  ghost predicate FilledUpTo(g: EddyGrid, errs: seq<Option<EddyError>>, tr: EddyTrack, field: array3<real>,
                             lon: seq<real>, lat: seq<real>, k: int, num: Numerics, x: nat)
    reads field
    requires TrackShaped(tr) && x <= |tr.lon| == |errs| && Shaped(g, |tr.lon|)
    requires field.Length1 == |lat| && field.Length2 == |lon|
  {
    forall x' :: 0 <= x' < x ==> errs[x'] == None && PointFilled(g, tr, field, lon, lat, k, num, x')
  }

  /** The lookups for point `x`: the grid column of its snapped longitude,
      the grid row of its snapped latitude and the SST time step `time - 1`,
      each raising where the source raises. */
  method LocatePoint(tr: EddyTrack, x: nat, nTime: nat, lon: seq<real>, lat: seq<real>, k: int)
    returns (res: Result<(nat, nat, nat), EddyError>)
    requires TrackShaped(tr) && x < |tr.lon|
    ensures res.Failure? <==> PointError(tr, x, nTime, lon, lat, k).Some?
    ensures res.Failure? ==> PointError(tr, x, nTime, lon, lat, k) == Some(res.error)
    ensures res.Success? ==> k != 0
    ensures res.Success? ==> IndexOf(lon, GridcellRound(tr.lon[x], k)) == Some(res.value.0)
    ensures res.Success? ==> IndexOf(lat, GridcellRound(tr.lat[x], k)) == Some(res.value.1)
    ensures res.Success? ==> PyIndex(tr.time[x] - 1, nTime) == Some(res.value.2)
  {
    if k == 0 {
      return Failure(ZeroDivision);
    }
    var lonIdx := IndexOf(lon, GridcellRound(tr.lon[x], k));
    if lonIdx.None? {
      return Failure(LonOffGrid);
    }
    var latIdx := IndexOf(lat, GridcellRound(tr.lat[x], k));
    if latIdx.None? {
      return Failure(LatOffGrid);
    }
    var step := PyIndex(tr.time[x] - 1, nTime);
    if step.None? {
      return Failure(TimeOutOfRange);
    }
    return Success((lonIdx.value, latIdx.value, step.value));
  }

  /** The grid with the first loop's writes for point `x`. */
  function SetPoint(g: EddyGrid, x: nat, tr: EddyTrack, lonIdx: nat, latIdx: nat, sst: real, code: int,
                    rotVelocity: real): (g': EddyGrid)
    requires TrackShaped(tr) && x < |tr.lon| && Shaped(g, |tr.lon|)
    ensures Shaped(g', |tr.lon|)
  {
    g.(lonIndex := g.lonIndex[x := lonIdx], latIndex := g.latIndex[x := latIdx],
       lat := g.lat[x := tr.lat[x]], lon := g.lon[x := tr.lon[x]],
       time := g.time[x := tr.time[x]], age := g.age[x := tr.age],
       amp := g.amp[x := tr.amp[x]], scale := g.scale[x := tr.scale[x]],
       sst := g.sst[x := sst], kind := g.kind[x := code], rotVelocity := g.rotVelocity[x := rotVelocity])
  }

  /** Writing point `x` with the values the source computes extends the
      filled prefix by one point. */
  lemma SetPointFills(g: EddyGrid, errs: seq<Option<EddyError>>, tr: EddyTrack, field: array3<real>,
                      lon: seq<real>, lat: seq<real>, k: int, num: Numerics, x: nat, lonIdx: nat, latIdx: nat, step: nat)
    requires TrackShaped(tr) && x < |tr.lon| == |errs| && Shaped(g, |tr.lon|)
    requires field.Length1 == |lat| && field.Length2 == |lon|
    requires FilledUpTo(g, errs, tr, field, lon, lat, k, num, x) && errs[x] == None
    requires k != 0
    requires IndexOf(lon, GridcellRound(tr.lon[x], k)) == Some(lonIdx)
    requires IndexOf(lat, GridcellRound(tr.lat[x], k)) == Some(latIdx)
    requires PyIndex(tr.time[x] - 1, field.Length0) == Some(step)
    ensures FilledUpTo(SetPoint(g, x, tr, lonIdx, latIdx, field[step, latIdx, lonIdx], TypeCode(tr.kind),
                                num.rotVelocity(tr.lat[x], tr.amp[x], tr.scale[x])),
                       errs, tr, field, lon, lat, k, num, x + 1)
  {
    var g' := SetPoint(g, x, tr, lonIdx, latIdx, field[step, latIdx, lonIdx], TypeCode(tr.kind),
                       num.rotVelocity(tr.lat[x], tr.amp[x], tr.scale[x]));
    forall x' | 0 <= x' < x + 1
      ensures errs[x'] == None && PointFilled(g', tr, field, lon, lat, k, num, x')
    {
      if x' < x {
        PointFilledFrame(g, g', tr, field, lon, lat, k, num, x');
      }
    }
  }

  /** The first loop of the per-eddy body: from `np.zeros` arrays, each point
      in turn gets its grid cell, copied values, SST, type code and
      rotational velocity; the first point that cannot be placed raises.
      Also returns the rotational velocity of the last point, which the
      second loop goes on using. */
  method FillPoints(tr: EddyTrack, field: array3<real>, lon: seq<real>, lat: seq<real>, k: int, num: Numerics)
    returns (res: Result<EddyGrid, EddyError>, rotVelocity: real)
    requires TrackShaped(tr)
    requires field.Length1 == |lat| && field.Length2 == |lon|
    ensures res.Failure? <==> EnrichError(tr, field.Length0, lon, lat, k).Some?
    ensures res.Failure? ==> EnrichError(tr, field.Length0, lon, lat, k) == Some(res.error)
    ensures res.Success? ==> Shaped(res.value, |tr.lon|)
    ensures res.Success? ==> forall x :: 0 <= x < |tr.lon| ==> PointFilled(res.value, tr, field, lon, lat, k, num, x)
    ensures res.Success? ==> forall x :: 0 <= x < |tr.lon| ==>
              res.value.translationSpeed[x] == 0.0 && res.value.nonlin[x] == 0.0
    ensures res.Success? && |tr.lon| > 0 ==> rotVelocity == res.value.rotVelocity[|tr.lon| - 1]
  {
    var n := |tr.lon|;
    var zeros := seq(n, _ => 0.0);
    var g := EddyGrid(seq(n, _ => 0), seq(n, _ => 0), zeros, zeros, seq(n, _ => 0), zeros, seq(n, _ => 0),
                      seq(n, _ => 0), zeros, zeros, zeros, zeros, zeros);
    ghost var errs := PointErrors(tr, field.Length0, lon, lat, k);
    rotVelocity := 0.0;
    for x := 0 to n
      invariant Shaped(g, n)
      invariant FilledUpTo(g, errs, tr, field, lon, lat, k, num, x)
      invariant forall x' :: x <= x' < n ==> g.kind[x'] == 0
      invariant g.translationSpeed == zeros && g.nonlin == zeros
      invariant x > 0 ==> rotVelocity == g.rotVelocity[x - 1]
    {
      var place := LocatePoint(tr, x, field.Length0, lon, lat, k);
      if place.Failure? {
        FirstSomeAt(errs, x);
        return Failure(place.error), rotVelocity;
      }
      var (lonIdx, latIdx, step) := place.value;
      var code := g.kind[x];
      if tr.kind == "anticyclonic" {
        code := 1;
      } else if tr.kind == "cyclonic" {
        code := 0;
      }
      rotVelocity := num.rotVelocity(tr.lat[x], tr.amp[x], tr.scale[x]);
      SetPointFills(g, errs, tr, field, lon, lat, k, num, x, lonIdx, latIdx, step);
      g := SetPoint(g, x, tr, lonIdx, latIdx, field[step, latIdx, lonIdx], code,
                    rotVelocity);
    }
    return Success(g), rotVelocity;
  }

  /** The second loop of the per-eddy body: from point 1 on, and only for an
      eddy at least two days old, the translation speed from the previous
      point and the nonlinearity, divided into the rotational velocity
      `rotVelocity` the first loop left behind. Nothing else changes. */
  method FillSpeeds(g: EddyGrid, tr: EddyTrack, num: Numerics, rotVelocity: real) returns (g': EddyGrid)
    requires TrackShaped(tr) && Shaped(g, |tr.lon|)
    requires forall x :: 0 <= x < |tr.lon| ==> g.translationSpeed[x] == 0.0 && g.nonlin[x] == 0.0
    requires |tr.lon| > 0 ==> rotVelocity == g.rotVelocity[|tr.lon| - 1]
    ensures g' == g.(translationSpeed := g'.translationSpeed, nonlin := g'.nonlin)
    ensures Shaped(g', |tr.lon|)
    ensures forall x :: 0 <= x < |tr.lon| ==> SpeedFilled(g', tr, num, x)
  {
    var n := |tr.lon|;
    g' := g;
    var x := 1;
    while x < n
      invariant 1 <= x && (n == 0 || x <= n)
      invariant g' == g.(translationSpeed := g'.translationSpeed, nonlin := g'.nonlin)
      invariant Shaped(g', n)
      invariant forall x' :: 0 <= x' < x && x' < n ==> SpeedFilled(g', tr, num, x')
      invariant forall x' :: x <= x' < n ==> g'.translationSpeed[x'] == 0.0 && g'.nonlin[x'] == 0.0
    {
      if tr.age >= 2 {
        var speed := num.translationSpeed(tr.lat[x - 1], tr.lon[x - 1], tr.lat[x], tr.lon[x]);
        var nonlin := num.ratio(rotVelocity, speed);
        ghost var before := g';
        g' := g'.(translationSpeed := g'.translationSpeed[x := speed], nonlin := g'.nonlin[x := nonlin]);
        forall x' | 0 <= x' < x
          ensures SpeedFilled(g', tr, num, x')
        {
          SpeedFilledFrame(before, g', tr, num, x');
        }
      }
      x := x + 1;
    }
  }

  /** The body of the per-eddy loop: both loops over the track's points. */
  method EnrichTrack(tr: EddyTrack, field: array3<real>, lon: seq<real>, lat: seq<real>, k: int, num: Numerics)
    returns (res: Result<EddyGrid, EddyError>)
    requires TrackShaped(tr)
    requires field.Length1 == |lat| && field.Length2 == |lon|
    ensures res.Failure? <==> EnrichError(tr, field.Length0, lon, lat, k).Some?
    ensures res.Failure? ==> EnrichError(tr, field.Length0, lon, lat, k) == Some(res.error)
    ensures res.Success? ==> IsEnriched(res.value, tr, field, lon, lat, k, num)
  {
    var points, rotVelocity := FillPoints(tr, field, lon, lat, k, num);
    if points.Failure? {
      return Failure(points.error);
    }
    var g := FillSpeeds(points.value, tr, num, rotVelocity);
    forall x | 0 <= x < |tr.lon|
      ensures PointFilled(g, tr, field, lon, lat, k, num, x)
    {
      PointFilledFrame(points.value, g, tr, field, lon, lat, k, num, x);
    }
    return Success(g);
  }

  /** Every grid index of the enriched eddy addresses a cell of an
      `nLat` by `nLon` grid. */
  predicate OnGrid(g: EddyGrid, nLat: nat, nLon: nat) {
    && (forall x :: 0 <= x < |g.latIndex| ==> g.latIndex[x] < nLat)
    && (forall x :: 0 <= x < |g.lonIndex| ==> g.lonIndex[x] < nLon)
  }

  /** An enriched eddy keeps the track's times, has one type entry per point,
      all equal to the track's type code, and addresses only cells of the
      `lat` by `lon` grid. */
  lemma EnrichedFacts(g: EddyGrid, tr: EddyTrack, field: array3<real>, lon: seq<real>, lat: seq<real>, k: int,
                      num: Numerics)
    requires TrackShaped(tr)
    requires field.Length1 == |lat| && field.Length2 == |lon|
    requires IsEnriched(g, tr, field, lon, lat, k, num)
    ensures g.time == tr.time[..|tr.lon|]
    ensures |g.kind| == |tr.lon|
    ensures forall x :: 0 <= x < |tr.lon| ==> g.kind[x] == TypeCode(tr.kind)
    ensures OnGrid(g, |lat|, |lon|)
  {
    forall x | 0 <= x < |tr.lon|
      ensures g.time[x] == tr.time[x] && g.kind[x] == TypeCode(tr.kind)
      ensures g.latIndex[x] < |lat| && g.lonIndex[x] < |lon|
    {
      assert PointFilled(g, tr, field, lon, lat, k, num, x);
    }
  }

  /** With a positive factor every point of an enriched eddy lies in the
      grid cell whose lower corner its indices select: the cell spans one
      `1 / res_factor` step from the grid value. */
  lemma EnrichedInCell(g: EddyGrid, tr: EddyTrack, field: array3<real>, lon: seq<real>, lat: seq<real>, k: int,
                       num: Numerics, x: nat)
    requires TrackShaped(tr) && x < |tr.lon| && k > 0
    requires field.Length1 == |lat| && field.Length2 == |lon|
    requires IsEnriched(g, tr, field, lon, lat, k, num)
    ensures g.lonIndex[x] < |lon| && g.latIndex[x] < |lat|
    ensures lon[g.lonIndex[x]] <= tr.lon[x] < lon[g.lonIndex[x]] + 1.0 / (k as real)
    ensures lat[g.latIndex[x]] <= tr.lat[x] < lat[g.latIndex[x]] + 1.0 / (k as real)
  {
    assert PointFilled(g, tr, field, lon, lat, k, num, x);
    GridcellRoundBounds(tr.lon[x], k);
    GridcellRoundBounds(tr.lat[x], k);
  }

  /** The per-eddy dictionary `eddy_int` of the split: ten arrays. */
  datatype EddySplit = EddySplit(
    time: seq<int>,
    sstAbsolute: seq<real>,
    sstAnomaly: seq<real>,
    amp: seq<real>,
    scale: seq<real>,
    rotVelocity: seq<real>,
    lat: seq<real>,
    lon: seq<real>,
    translationSpeed: seq<real>,
    nonlin: seq<real>)

  /** All ten arrays have `n` entries. */
  predicate SplitShaped(s: EddySplit, n: nat) {
    && |s.time| == n && |s.sstAbsolute| == n && |s.sstAnomaly| == n && |s.amp| == n && |s.scale| == n
    && |s.rotVelocity| == n && |s.lat| == n && |s.lon| == n && |s.translationSpeed| == n && |s.nonlin| == n
  }

  /** The day of the climatological year that step `t` of `baseline_mean`
      holds. `baseline_mean` stacks `num_years` copies of the 365-day
      `clim_mean`, so its step `i` is day `i % 365`; a negative step counts
      from the end, and a step outside raises (None). */
  function BaselineDay(t: int, numYears: nat): (r: Option<nat>)
    ensures r.Some? <==> -(numYears * DaysInYear) <= t < numYears * DaysInYear
    ensures r.Some? ==> r.value < DaysInYear
    ensures r.Some? ==> r.value == t % DaysInYear
  {
    match PyIndex(t, numYears * DaysInYear)
    case None => None
    case Some(i) =>
      if t < 0 then ModAddYears(t, numYears); Some(i % DaysInYear)
      else Some(i % DaysInYear)
  }

  /** Adding `k` whole years keeps the day of the year. */
  lemma {:induction false} ModAddYears(a: int, k: nat)
    ensures (a + k * DaysInYear) % DaysInYear == a % DaysInYear
  {
    if k > 0 {
      ModAddYears(a, k - 1);
      var b := a + (k - 1) * DaysInYear;
      assert a + k * DaysInYear == b + DaysInYear;
      assert (b + DaysInYear) % DaysInYear == b % DaysInYear;
    }
  }

  /** Every time of `times` is a step of the tiled climatology. */
  predicate InBaseline(times: seq<int>, numYears: nat) {
    forall x :: 0 <= x < |times| ==> BaselineDay(times[x], numYears).Some?
  }

  /** The split's writes for point `x`: copies of the enriched values, the
      amplitude converted from metres to centimetres, and the SST anomaly
      against the climatological mean at step `time` (not `time - 1` as for
      the SST itself) of the tiled baseline. */
  ghost predicate SplitPointOf(s: EddySplit, g: EddyGrid, climMean: array3<real>, numYears: nat, x: nat)
    reads climMean
    requires Shaped(g, |g.time|) && SplitShaped(s, |g.time|) && x < |g.time|
    requires climMean.Length0 == DaysInYear && OnGrid(g, climMean.Length1, climMean.Length2)
  {
    && s.time[x] == g.time[x] && s.sstAbsolute[x] == g.sst[x]
    && BaselineDay(g.time[x], numYears).Some?
    && s.sstAnomaly[x] == g.sst[x] - climMean[BaselineDay(g.time[x], numYears).value, g.latIndex[x], g.lonIndex[x]]
    && s.amp[x] == g.amp[x] * 100.0 && s.scale[x] == g.scale[x] && s.rotVelocity[x] == g.rotVelocity[x]
    && s.lat[x] == g.lat[x] && s.lon[x] == g.lon[x]
    && s.translationSpeed[x] == g.translationSpeed[x] && s.nonlin[x] == g.nonlin[x]
  }

  /** `s` is the split record of the enriched eddy `g`. */
  ghost predicate IsSplitOf(s: EddySplit, g: EddyGrid, climMean: array3<real>, numYears: nat)
    reads climMean
    requires Shaped(g, |g.time|)
    requires climMean.Length0 == DaysInYear && OnGrid(g, climMean.Length1, climMean.Length2)
  {
    && SplitShaped(s, |g.time|)
    && forall x :: 0 <= x < |g.time| ==> SplitPointOf(s, g, climMean, numYears, x)
  }

  /** Whether point `x` is split depends only on the entries at `x`. */
  lemma SplitPointFrame(s: EddySplit, s': EddySplit, g: EddyGrid, climMean: array3<real>, numYears: nat, x: nat)
    requires Shaped(g, |g.time|) && SplitShaped(s, |g.time|) && SplitShaped(s', |g.time|) && x < |g.time|
    requires climMean.Length0 == DaysInYear && OnGrid(g, climMean.Length1, climMean.Length2)
    requires s'.time[x] == s.time[x] && s'.sstAbsolute[x] == s.sstAbsolute[x] && s'.sstAnomaly[x] == s.sstAnomaly[x]
    requires s'.amp[x] == s.amp[x] && s'.scale[x] == s.scale[x] && s'.rotVelocity[x] == s.rotVelocity[x]
    requires s'.lat[x] == s.lat[x] && s'.lon[x] == s.lon[x]
    requires s'.translationSpeed[x] == s.translationSpeed[x] && s'.nonlin[x] == s.nonlin[x]
    requires SplitPointOf(s, g, climMean, numYears, x)
    ensures SplitPointOf(s', g, climMean, numYears, x)
  {
  }

  /** The split record with the writes for point `x`. */
  function SetSplitPoint(s: EddySplit, g: EddyGrid, x: nat, anomaly: real): (s': EddySplit)
    requires Shaped(g, |g.time|) && SplitShaped(s, |g.time|) && x < |g.time|
    ensures SplitShaped(s', |g.time|)
  {
    s.(time := s.time[x := g.time[x]], sstAbsolute := s.sstAbsolute[x := g.sst[x]],
       sstAnomaly := s.sstAnomaly[x := anomaly], amp := s.amp[x := g.amp[x] * 100.0],
       scale := s.scale[x := g.scale[x]], rotVelocity := s.rotVelocity[x := g.rotVelocity[x]],
       lat := s.lat[x := g.lat[x]], lon := s.lon[x := g.lon[x]],
       translationSpeed := s.translationSpeed[x := g.translationSpeed[x]], nonlin := s.nonlin[x := g.nonlin[x]])
  }

  /** All points before `x` are split. */
  ghost predicate SplitUpTo(s: EddySplit, g: EddyGrid, climMean: array3<real>, numYears: nat, x: nat)
    reads climMean
    requires Shaped(g, |g.time|) && SplitShaped(s, |g.time|) && x <= |g.time|
    requires climMean.Length0 == DaysInYear && OnGrid(g, climMean.Length1, climMean.Length2)
  {
    forall x' :: 0 <= x' < x ==> SplitPointOf(s, g, climMean, numYears, x')
  }

  /** Writing point `x` with the source's values extends the split prefix. */
  lemma SetSplitPointSplits(s: EddySplit, g: EddyGrid, climMean: array3<real>, numYears: nat, x: nat, day: nat)
    requires Shaped(g, |g.time|) && SplitShaped(s, |g.time|) && x < |g.time|
    requires climMean.Length0 == DaysInYear && OnGrid(g, climMean.Length1, climMean.Length2)
    requires SplitUpTo(s, g, climMean, numYears, x)
    requires BaselineDay(g.time[x], numYears) == Some(day)
    ensures SplitUpTo(SetSplitPoint(s, g, x, g.sst[x] - climMean[day, g.latIndex[x], g.lonIndex[x]]),
                      g, climMean, numYears, x + 1)
  {
    var s' := SetSplitPoint(s, g, x, g.sst[x] - climMean[day, g.latIndex[x], g.lonIndex[x]]);
    forall x' | 0 <= x' < x + 1
      ensures SplitPointOf(s', g, climMean, numYears, x')
    {
      if x' < x {
        SplitPointFrame(s, s', g, climMean, numYears, x');
      }
    }
  }

  /** The inner loop of the split for one eddy: `np.zeros` arrays filled
      point by point; a time outside the tiled climatology raises. */
  method SplitEddy(g: EddyGrid, climMean: array3<real>, numYears: nat) returns (res: Result<EddySplit, EddyError>)
    requires Shaped(g, |g.time|)
    requires climMean.Length0 == DaysInYear && OnGrid(g, climMean.Length1, climMean.Length2)
    ensures res.Failure? <==> !InBaseline(g.time, numYears)
    ensures res.Failure? ==> res.error == TimeOutOfRange
    ensures res.Success? ==> IsSplitOf(res.value, g, climMean, numYears)
  {
    var n := |g.time|;
    var zeros := seq(n, _ => 0.0);
    var s := EddySplit(seq(n, _ => 0), zeros, zeros, zeros, zeros, zeros, zeros, zeros, zeros, zeros);
    for x := 0 to n
      invariant SplitShaped(s, n)
      invariant SplitUpTo(s, g, climMean, numYears, x)
    {
      var day := BaselineDay(g.time[x], numYears);
      if day.None? {
        assert !InBaseline(g.time, numYears);
        return Failure(TimeOutOfRange);
      }
      SetSplitPointSplits(s, g, climMean, numYears, x, day.value);
      s := SetSplitPoint(s, g, x, g.sst[x] - climMean[day.value, g.latIndex[x], g.lonIndex[x]]);
    }
    forall x | 0 <= x < n
      ensures BaselineDay(g.time[x], numYears).Some?
    {
      assert SplitPointOf(s, g, climMean, numYears, x);
    }
    assert InBaseline(g.time, numYears);
    return Success(s);
  }

  /** The enriched eddies whose first type entry is `code`, in census
      order: the list one branch of the split appends to. */
  function OfType(gs: seq<EddyGrid>, code: int): (r: seq<EddyGrid>)
    ensures |r| <= |gs|
    ensures forall g :: g in r <==> g in gs && |g.kind| > 0 && g.kind[0] == code
  {
    if |gs| == 0 then []
    else
      var last := gs[|gs| - 1];
      assert gs == gs[..|gs| - 1] + [last];
      OfType(gs[..|gs| - 1], code) + (if |last.kind| > 0 && last.kind[0] == code then [last] else [])
  }

  /** When every eddy's first type entry is 0 or 1, the two branches
      together take every eddy exactly once. */
  lemma {:induction false} OfTypePartition(gs: seq<EddyGrid>)
    requires forall i :: 0 <= i < |gs| ==> |gs[i].kind| > 0 && (gs[i].kind[0] == 0 || gs[i].kind[0] == 1)
    ensures |OfType(gs, 1)| + |OfType(gs, 0)| == |gs|
  {
    if |gs| > 0 {
      OfTypePartition(gs[..|gs| - 1]);
    }
  }

  /** `ss` holds the split records of the eddies `gs`, one for one. */
  ghost predicate SplitsOf(ss: seq<EddySplit>, gs: seq<EddyGrid>, climMean: array3<real>, numYears: nat)
    reads climMean
    requires climMean.Length0 == DaysInYear
  {
    && |ss| == |gs|
    && forall i :: 0 <= i < |gs| ==>
         && Shaped(gs[i], |gs[i].time|) && OnGrid(gs[i], climMean.Length1, climMean.Length2)
         && IsSplitOf(ss[i], gs[i], climMean, numYears)
  }

  /** Appending a split record and its eddy keeps the lists aligned. */
  lemma AppendSplit(ss: seq<EddySplit>, gs: seq<EddyGrid>, s: EddySplit, g: EddyGrid, climMean: array3<real>,
                    numYears: nat)
    requires climMean.Length0 == DaysInYear
    requires SplitsOf(ss, gs, climMean, numYears)
    requires Shaped(g, |g.time|) && OnGrid(g, climMean.Length1, climMean.Length2)
    requires IsSplitOf(s, g, climMean, numYears)
    ensures SplitsOf(ss + [s], gs + [g], climMean, numYears)
  {
    var ss', gs' := ss + [s], gs + [g];
    forall i | 0 <= i < |gs'|
      ensures Shaped(gs'[i], |gs'[i].time|) && OnGrid(gs'[i], climMean.Length1, climMean.Length2)
      ensures IsSplitOf(ss'[i], gs'[i], climMean, numYears)
    {
      if i < |gs| {
        assert ss'[i] == ss[i] && gs'[i] == gs[i];
      }
    }
  }

  /** The exception splitting the eddy of track `tr` raises: `type[0]` of a
      track without points, or a time outside the tiled climatology. */
  ghost function SplitError(tr: EddyTrack, numYears: nat): Option<EddyError>
    requires TrackShaped(tr)
  {
    if |tr.lon| == 0 then Some(EmptyTrack)
    else if !InBaseline(tr.time[..|tr.lon|], numYears) then Some(TimeOutOfRange)
    else None
  }

  /** The enrichment exception of each track. */
  function EnrichErrors(tracks: seq<EddyTrack>, nTime: nat, lon: seq<real>, lat: seq<real>, k: int)
    : (errs: seq<Option<EddyError>>)
    requires forall i :: 0 <= i < |tracks| ==> TrackShaped(tracks[i])
    ensures |errs| == |tracks|
    ensures forall i :: 0 <= i < |tracks| ==> errs[i] == EnrichError(tracks[i], nTime, lon, lat, k)
  {
    seq(|tracks|, i requires 0 <= i < |tracks| => EnrichError(tracks[i], nTime, lon, lat, k))
  }

  /** The split exception of each track. */
  ghost function SplitErrors(tracks: seq<EddyTrack>, numYears: nat): (errs: seq<Option<EddyError>>)
    requires forall i :: 0 <= i < |tracks| ==> TrackShaped(tracks[i])
    ensures |errs| == |tracks|
    ensures forall i :: 0 <= i < |tracks| ==> errs[i] == SplitError(tracks[i], numYears)
  {
    seq(|tracks|, i requires 0 <= i < |tracks| => SplitError(tracks[i], numYears))
  }

  /** The exception the census raises, if any: `int(1 / spat_res)` first,
      then the first track that cannot be enriched (the enrichment loop
      runs over all tracks before the split begins), then the first eddy
      that cannot be split. */
  ghost function CensusError(tracks: seq<EddyTrack>, nTime: nat, lon: seq<real>, lat: seq<real>, spatRes: real,
                             numYears: nat): Option<EddyError>
    requires forall i :: 0 <= i < |tracks| ==> TrackShaped(tracks[i])
  {
    match ResFactor(spatRes)
    case Failure(e) => Some(e)
    case Success(k) =>
      var enrich := FirstSome(EnrichErrors(tracks, nTime, lon, lat, k));
      if enrich.Some? then enrich else FirstSome(SplitErrors(tracks, numYears))
  }

  /** The exception the split raises for the enriched eddy `g`: `type[0]`
      of an eddy without points, or, in either branch, a time outside the
      tiled climatology. An eddy of any other type is skipped. */
  ghost function SplitErrorOf(g: EddyGrid, numYears: nat): Option<EddyError> {
    if |g.kind| == 0 then Some(EmptyTrack)
    else if (g.kind[0] == 1 || g.kind[0] == 0) && !InBaseline(g.time, numYears) then Some(TimeOutOfRange)
    else None
  }

  /** The split exception of each enriched eddy. */
  ghost function SplitErrorsOf(gs: seq<EddyGrid>, numYears: nat): (errs: seq<Option<EddyError>>)
    ensures |errs| == |gs|
    ensures forall i :: 0 <= i < |gs| ==> errs[i] == SplitErrorOf(gs[i], numYears)
  {
    seq(|gs|, i requires 0 <= i < |gs| => SplitErrorOf(gs[i], numYears))
  }

  /** The eddies before `ed` that one branch of the split takes, extended
      by one eddy. */
  lemma OfTypeStep(gs: seq<EddyGrid>, ed: nat, code: int)
    requires ed < |gs|
    ensures OfType(gs[..ed + 1], code)
            == OfType(gs[..ed], code) + (if |gs[ed].kind| > 0 && gs[ed].kind[0] == code then [gs[ed]] else [])
  {
    assert gs[..ed + 1][..ed] == gs[..ed];
  }

  /** Every eddy the split passes over keeps both lists aligned with the
      eddies taken so far. */
  lemma SkipSplit(ss: seq<EddySplit>, gs: seq<EddyGrid>, ed: nat, code: int, climMean: array3<real>, numYears: nat)
    requires ed < |gs| && climMean.Length0 == DaysInYear
    requires SplitsOf(ss, OfType(gs[..ed], code), climMean, numYears)
    requires !(|gs[ed].kind| > 0 && gs[ed].kind[0] == code)
    ensures SplitsOf(ss, OfType(gs[..ed + 1], code), climMean, numYears)
  {
    OfTypeStep(gs, ed, code);
  }

  /** Splitting eddy `ed` into the branch of its type keeps that list
      aligned with the eddies taken so far. */
  lemma TakeSplit(ss: seq<EddySplit>, gs: seq<EddyGrid>, ed: nat, s: EddySplit, climMean: array3<real>,
                  numYears: nat)
    requires ed < |gs| && climMean.Length0 == DaysInYear && |gs[ed].kind| > 0
    requires Shaped(gs[ed], |gs[ed].time|) && OnGrid(gs[ed], climMean.Length1, climMean.Length2)
    requires SplitsOf(ss, OfType(gs[..ed], gs[ed].kind[0]), climMean, numYears)
    requires IsSplitOf(s, gs[ed], climMean, numYears)
    ensures SplitsOf(ss + [s], OfType(gs[..ed + 1], gs[ed].kind[0]), climMean, numYears)
  {
    OfTypeStep(gs, ed, gs[ed].kind[0]);
    AppendSplit(ss, OfType(gs[..ed], gs[ed].kind[0]), s, gs[ed], climMean, numYears);
  }

  /** No entry before `n` is present. */
  ghost predicate NoneUpTo<T>(s: seq<Option<T>>, n: nat)
    requires n <= |s|
  {
    forall i :: 0 <= i < n ==> s[i].None?
  }

  /** An absent entry at `n` extends the absent prefix. */
  lemma NoneExtend<T>(s: seq<Option<T>>, n: nat)
    requires n < |s| && NoneUpTo(s, n) && s[n].None?
    ensures NoneUpTo(s, n + 1)
  {
  }

  /** The split loop of the census: every eddy of type 1 goes to the
      anticyclonic list and every eddy of type 0 to the cyclonic one, each
      as its split record; the first eddy that cannot be split raises. */
  method SplitByType(eddies: seq<EddyGrid>, climMean: array3<real>, numYears: nat)
    returns (res: Result<(seq<EddySplit>, seq<EddySplit>), EddyError>)
    requires climMean.Length0 == DaysInYear
    requires forall i :: 0 <= i < |eddies| ==>
               Shaped(eddies[i], |eddies[i].time|) && OnGrid(eddies[i], climMean.Length1, climMean.Length2)
    ensures res.Failure? <==> FirstSome(SplitErrorsOf(eddies, numYears)).Some?
    ensures res.Failure? ==> FirstSome(SplitErrorsOf(eddies, numYears)) == Some(res.error)
    ensures res.Success? ==> SplitsOf(res.value.0, OfType(eddies, 1), climMean, numYears)
    ensures res.Success? ==> SplitsOf(res.value.1, OfType(eddies, 0), climMean, numYears)
  {
    ghost var errs := SplitErrorsOf(eddies, numYears);
    var anticyclonic: seq<EddySplit> := [];
    var cyclonic: seq<EddySplit> := [];
    for ed := 0 to |eddies|
      invariant SplitsOf(anticyclonic, OfType(eddies[..ed], 1), climMean, numYears)
      invariant SplitsOf(cyclonic, OfType(eddies[..ed], 0), climMean, numYears)
      invariant NoneUpTo(errs, ed)
    {
      var g := eddies[ed];
      assert errs[ed] == SplitErrorOf(g, numYears);
      if |g.kind| == 0 {
        FirstSomeAt(errs, ed);
        return Failure(EmptyTrack);
      }
      if g.kind[0] == 1 {
        var s := SplitEddy(g, climMean, numYears);
        if s.Failure? {
          FirstSomeAt(errs, ed);
          return Failure(s.error);
        }
        TakeSplit(anticyclonic, eddies, ed, s.value, climMean, numYears);
        SkipSplit(cyclonic, eddies, ed, 0, climMean, numYears);
        anticyclonic := anticyclonic + [s.value];
      } else if g.kind[0] == 0 {
        var s := SplitEddy(g, climMean, numYears);
        if s.Failure? {
          FirstSomeAt(errs, ed);
          return Failure(s.error);
        }
        TakeSplit(cyclonic, eddies, ed, s.value, climMean, numYears);
        SkipSplit(anticyclonic, eddies, ed, 1, climMean, numYears);
        cyclonic := cyclonic + [s.value];
      } else {
        SkipSplit(anticyclonic, eddies, ed, 1, climMean, numYears);
        SkipSplit(cyclonic, eddies, ed, 0, climMean, numYears);
      }
      NoneExtend(errs, ed);
    }
    assert eddies[..|eddies|] == eddies;
    return Success((anticyclonic, cyclonic));
  }

  /** The first `n` eddies are the enriched tracks. */
  ghost predicate EnrichedUpTo(eddies: seq<EddyGrid>, tracks: seq<EddyTrack>, field: array3<real>, lon: seq<real>,
                               lat: seq<real>, k: int, num: Numerics, n: nat)
    reads field
    requires n <= |tracks| && n <= |eddies|
    requires forall i :: 0 <= i < |tracks| ==> TrackShaped(tracks[i])
    requires field.Length1 == |lat| && field.Length2 == |lon|
  {
    forall i :: 0 <= i < n ==> IsEnriched(eddies[i], tracks[i], field, lon, lat, k, num)
  }

  /** Appending the enriched form of track `n` extends the enriched prefix. */
  lemma AppendEnriched(eddies: seq<EddyGrid>, tracks: seq<EddyTrack>, field: array3<real>, lon: seq<real>,
                       lat: seq<real>, k: int, num: Numerics, n: nat, g: EddyGrid)
    requires n < |tracks| && n == |eddies|
    requires forall i :: 0 <= i < |tracks| ==> TrackShaped(tracks[i])
    requires field.Length1 == |lat| && field.Length2 == |lon|
    requires EnrichedUpTo(eddies, tracks, field, lon, lat, k, num, n)
    requires IsEnriched(g, tracks[n], field, lon, lat, k, num)
    ensures EnrichedUpTo(eddies + [g], tracks, field, lon, lat, k, num, n + 1)
  {
    var eddies' := eddies + [g];
    forall i | 0 <= i < n + 1
      ensures IsEnriched(eddies'[i], tracks[i], field, lon, lat, k, num)
    {
      if i < n {
        assert eddies'[i] == eddies[i];
      }
    }
  }

  /** The enrichment loop of the census: each track in turn; the first
      track that cannot be enriched raises. */
  method EnrichAll(tracks: seq<EddyTrack>, field: array3<real>, lon: seq<real>, lat: seq<real>, k: int,
                   num: Numerics)
    returns (res: Result<seq<EddyGrid>, EddyError>)
    requires forall i :: 0 <= i < |tracks| ==> TrackShaped(tracks[i])
    requires field.Length1 == |lat| && field.Length2 == |lon|
    ensures res.Failure? <==> FirstSome(EnrichErrors(tracks, field.Length0, lon, lat, k)).Some?
    ensures res.Failure? ==> FirstSome(EnrichErrors(tracks, field.Length0, lon, lat, k)) == Some(res.error)
    ensures res.Success? ==> |res.value| == |tracks|
    ensures res.Success? ==> EnrichedUpTo(res.value, tracks, field, lon, lat, k, num, |tracks|)
  {
    ghost var errs := EnrichErrors(tracks, field.Length0, lon, lat, k);
    var eddies: seq<EddyGrid> := [];
    for ed := 0 to |tracks|
      invariant |eddies| == ed
      invariant NoneUpTo(errs, ed)
      invariant EnrichedUpTo(eddies, tracks, field, lon, lat, k, num, ed)
    {
      var g := EnrichTrack(tracks[ed], field, lon, lat, k, num);
      if g.Failure? {
        FirstSomeAt(errs, ed);
        return Failure(g.error);
      }
      NoneExtend(errs, ed);
      AppendEnriched(eddies, tracks, field, lon, lat, k, num, ed, g.value);
      eddies := eddies + [g.value];
    }
    return Success(eddies);
  }

  /** The split raises for an enriched eddy exactly what the track's own
      conditions say. */
  lemma SplitErrorAgrees(g: EddyGrid, tr: EddyTrack, field: array3<real>, lon: seq<real>, lat: seq<real>, k: int,
                         num: Numerics, numYears: nat)
    requires TrackShaped(tr)
    requires field.Length1 == |lat| && field.Length2 == |lon|
    requires IsEnriched(g, tr, field, lon, lat, k, num)
    ensures SplitErrorOf(g, numYears) == SplitError(tr, numYears)
  {
    EnrichedFacts(g, tr, field, lon, lat, k, num);
    TypeCodeBinary(tr.kind);
  }

  /** The three lists the census returns. */
  datatype Census = Census(eddies: seq<EddyGrid>, anticyclonic: seq<EddySplit>, cyclonic: seq<EddySplit>)

  /** `c` is the census of `tracks`: each eddy the enriched track, and the
      anticyclonic and cyclonic lists the split records of the eddies of
      type 1 and 0, in order. */
  ghost predicate IsCensusOf(c: Census, tracks: seq<EddyTrack>, field: array3<real>, lon: seq<real>, lat: seq<real>,
                             climMean: array3<real>, k: int, num: Numerics)
    reads field, climMean
    requires forall i :: 0 <= i < |tracks| ==> TrackShaped(tracks[i])
    requires field.Length1 == |lat| && field.Length2 == |lon|
    requires climMean.Length0 == DaysInYear
  {
    && |c.eddies| == |tracks|
    && EnrichedUpTo(c.eddies, tracks, field, lon, lat, k, num, |tracks|)
    && SplitsOf(c.anticyclonic, OfType(c.eddies, 1), climMean, field.Length0 / DaysInYear)
    && SplitsOf(c.cyclonic, OfType(c.eddies, 0), climMean, field.Length0 / DaysInYear)
  }

  /** `eddy_census_calc`: enrich every track, then split the enriched
      eddies by type with SST anomalies against `clim_mean` tiled over the
      `len(field) / 365` whole years of the field. */
  method EddyCensusCalc(tracks: seq<EddyTrack>, field: array3<real>, lon: seq<real>, lat: seq<real>,
                        climMean: array3<real>, spatRes: real, num: Numerics)
    returns (res: Result<Census, EddyError>)
    requires forall i :: 0 <= i < |tracks| ==> TrackShaped(tracks[i])
    requires field.Length1 == |lat| && field.Length2 == |lon|
    requires climMean.Length0 == DaysInYear && climMean.Length1 == |lat| && climMean.Length2 == |lon|
    ensures res.Failure? <==> CensusError(tracks, field.Length0, lon, lat, spatRes, field.Length0 / DaysInYear).Some?
    ensures res.Failure? ==> CensusError(tracks, field.Length0, lon, lat, spatRes, field.Length0 / DaysInYear)
                             == Some(res.error)
    ensures res.Success? ==> ResFactor(spatRes).Success?
    ensures res.Success? ==> IsCensusOf(res.value, tracks, field, lon, lat, climMean, ResFactor(spatRes).value, num)
    ensures res.Success? ==> forall i :: 0 <= i < |tracks| ==> |tracks[i].lon| > 0
  {
    var resFactor := ResFactor(spatRes);
    if resFactor.Failure? {
      return Failure(resFactor.error);
    }
    var k := resFactor.value;
    var numYears := field.Length0 / DaysInYear;
    var enriched := EnrichAll(tracks, field, lon, lat, k, num);
    if enriched.Failure? {
      return Failure(enriched.error);
    }
    var eddies := enriched.value;
    forall i | 0 <= i < |eddies|
      ensures Shaped(eddies[i], |eddies[i].time|) && OnGrid(eddies[i], climMean.Length1, climMean.Length2)
      ensures SplitErrorOf(eddies[i], numYears) == SplitError(tracks[i], numYears)
    {
      EnrichedFacts(eddies[i], tracks[i], field, lon, lat, k, num);
      SplitErrorAgrees(eddies[i], tracks[i], field, lon, lat, k, num, numYears);
    }
    assert SplitErrorsOf(eddies, numYears) == SplitErrors(tracks, numYears);
    var split := SplitByType(eddies, climMean, numYears);
    if split.Failure? {
      return Failure(split.error);
    }
    return Success(Census(eddies, split.value.0, split.value.1));
  }

  /** Of a census of tracks that all have points, every eddy lands in
      exactly one of the two lists: the anticyclonic list takes exactly the
      eddies of anticyclonic tracks, and together the lists have one split
      record per track. */
  lemma CensusPartition(c: Census, tracks: seq<EddyTrack>, field: array3<real>, lon: seq<real>, lat: seq<real>,
                        climMean: array3<real>, k: int, num: Numerics)
    requires forall i :: 0 <= i < |tracks| ==> TrackShaped(tracks[i]) && |tracks[i].lon| > 0
    requires field.Length1 == |lat| && field.Length2 == |lon|
    requires climMean.Length0 == DaysInYear
    requires IsCensusOf(c, tracks, field, lon, lat, climMean, k, num)
    ensures |c.anticyclonic| + |c.cyclonic| == |tracks|
    ensures forall i :: 0 <= i < |tracks| ==> (c.eddies[i] in OfType(c.eddies, 1) <==> tracks[i].kind == "anticyclonic")
    ensures forall i :: 0 <= i < |tracks| ==> (c.eddies[i] in OfType(c.eddies, 0) <==> tracks[i].kind != "anticyclonic")
  {
    forall i | 0 <= i < |tracks|
      ensures |c.eddies[i].kind| > 0 && c.eddies[i].kind[0] == TypeCode(tracks[i].kind)
      ensures c.eddies[i].kind[0] == 0 || c.eddies[i].kind[0] == 1
    {
      EnrichedFacts(c.eddies[i], tracks[i], field, lon, lat, k, num);
      TypeCodeBinary(tracks[i].kind);
    }
    OfTypePartition(c.eddies);
  }
}
