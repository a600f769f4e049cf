/** The time-loop march with wall heights (solweig_gpu/solweig.py,
    `shadowingfunction_wallheight_23`) for scenes without bushes. It starts with a step on the cell
    itself, compares each source a second time with the previous step's height, and keeps the
    vegetation shadow volume. */
module WallHeightMarch {
  import opened Planes
  import opened Rays
  import opened ShadowMarch
  import opened ShadowLaws

  datatype WallCell = WallCell(f: real, volume: real, sh: real, vegsh: real, vb: real)

  /** What the lagged comparison of body k sees: the sources of step k, one climb lower. */
  function LastDz(ray: Ray, k: nat): real {
    if k == 0 then 0.0 else ray.dz(k - 1)
  }

  datatype Lag = Lag(veg: real, veg2: real)

  function LookBack(s: Surfaces, ray: Ray, i: int, j: int, k: nat): Lag
    requires s.Valid()
  {
    Lag(Shifted(s.veg, s.rows, s.cols, i, j, ray.dx(k), ray.dy(k), LastDz(ray, k)),
        Shifted(s.veg2, s.rows, s.cols, i, j, ray.dx(k), ray.dy(k), LastDz(ray, k)))
  }

  /** Between one and three of the four comparisons hold; all four mean the ray passes inside the
      trunk zone. */
  function VegHit(here: real, v: View, lag: Lag): real {
    HitOf(AsReal(v.tempveg > here) + AsReal(v.tempveg2 > here) + AsReal(lag.veg > here) + AsReal(lag.veg2 > here))
  }

  function HitOf(n: real): real {
    if n == 4.0 then 0.0 else if n > 0.0 then 1.0 else n
  }

  function WallUpdate(here: real, v: View, lag: Lag, c: WallCell): WallCell {
    var f := Max(c.f, v.temp);
    var sh := AsReal(f > here);
    var gated := Gate(Max(c.vegsh, VegHit(here, v, lag)), sh);
    WallCell(f, Max(c.volume, v.tempveg), sh, gated, c.vb + gated)
  }

  function WallStart(s: Surfaces, i: int, j: int): WallCell
    requires s.Valid() && s.Has(i, j)
  {
    WallCell(s.a[i][j], s.veg[i][j], 0.0, 0.0, 0.0)
  }

  /** The accumulators after n loop bodies; body number n has `index == n - 1`. */
  function WallFold(s: Surfaces, ray: Ray, i: int, j: int, n: nat): WallCell
    requires s.Valid() && s.Has(i, j)
  {
    if n == 0 then WallStart(s, i, j)
    else WallUpdate(s.a[i][j], Look(s, ray, i, j, n - 1), LookBack(s, ray, i, j, n - 1), WallFold(s, ray, i, j, n - 1))
  }

  /** The self step runs as soon as the loop is entered, so there is one body more than steps. */
  function BodyCount(ray: Ray, rows: nat, cols: nat, amplitude: real): nat
    requires ray.Valid()
  {
    if ray.Continues(rows, cols, amplitude, 0) then StepCount(ray, rows, cols, amplitude) + 1 else 0
  }

  // ---------------------------------------------------------------- walls

  /** The eight returned planes at one cell. */
  datatype WallLight = WallLight(vegsh: real, sh: real, vb: real, wallsh: real, wallsun: real, wallshve: real,
                                 facesh: real, facesun: real)

  /** Which walls face away from the sun; `pi` is half a turn. */
  function FaceShade(azimuth: real, pi: real, aspect: real, wallbol: real): real {
    var azilow, azihigh := azimuth - pi / 2.0, azimuth + pi / 2.0;
    if azilow >= 0.0 && azihigh < 2.0 * pi then AsReal(aspect < azilow || aspect >= azihigh) - wallbol + 1.0
    else if azilow < 0.0 then 1.0 - AsReal(aspect > azilow + 2.0 * pi || aspect <= azihigh)
    else 1.0 - AsReal(aspect > azilow || aspect <= azihigh - 2.0 * pi)
  }

  function NonNegative(x: real): real {
    if x < 0.0 then 0.0 else x
  }

  /** Wall heights from the accumulators; the vegetation volume counts where the flag is set. */
  function WallFinish(here: real, walls: real, facesh: real, c: WallCell): WallLight {
    var flag := if c.vegsh > 0.0 then 1.0 else c.vegsh;
    var vb := (if c.vb > 0.0 then 1.0 else c.vb) - c.vegsh;
    var volume := if flag == 1.0 && walls > 0.0 then c.volume - here else 0.0;
    var lit := if facesh == 1.0 then 0.0 else NonNegative(walls - (c.f - here));
    var wallsh := walls - lit;
    var shaded := NonNegative(volume - wallsh);
    WallLight(1.0 - flag, 1.0 - c.sh, 1.0 - vb, wallsh, NonNegative(lit - shaded),
              if shaded > walls then walls else shaded,
              facesh, AsReal(facesh + AsReal(walls > 0.0) == 1.0 && walls > 0.0))
  }

  function WallMarch(s: Surfaces, ray: Ray, amplitude: real, walls: real, facesh: real, i: int, j: int): WallLight
    requires s.Valid() && s.Has(i, j) && ray.Valid()
  {
    WallFinish(s.a[i][j], walls, facesh, WallFold(s, ray, i, j, BodyCount(ray, s.rows, s.cols, amplitude)))
  }

  // ---------------------------------------------------------------- stop points

  predicate WallSettled(c: WallCell, here: real) {
    && c.f >= here && c.sh == AsReal(c.f > here)
    && Binary(c.vegsh) && c.vb >= 0.0
    && !(c.vegsh == 1.0 && c.sh == 1.0)
    && (c.vegsh == 1.0 ==> c.vb > 0.0)
  }

  lemma WallUpdateSettles(here: real, v: View, lag: Lag, c: WallCell)
    requires WallSettled(c, here) || (c.f == here && c.sh == c.vegsh == c.vb == 0.0)
    ensures WallSettled(WallUpdate(here, v, lag, c), here)
  {
  }

  lemma {:induction false} WallFoldSettles(s: Surfaces, ray: Ray, i: int, j: int, n: nat)
    requires s.Valid() && s.Has(i, j) && n >= 1
    ensures WallSettled(WallFold(s, ray, i, j, n), s.a[i][j])
  {
    if n > 1 {
      WallFoldSettles(s, ray, i, j, n - 1);
    }
    WallUpdateSettles(s.a[i][j], Look(s, ray, i, j, n - 1), LookBack(s, ray, i, j, n - 1), WallFold(s, ray, i, j, n - 1));
  }

  /** Two cells differ at most in how often the standing flag was counted and in how far the
      vegetation volume stays below the surface. */
  predicate Alike(c: WallCell, d: WallCell, here: real) {
    && c.f == d.f && c.sh == d.sh && c.vegsh == d.vegsh
    && (c.vb > 0.0 <==> d.vb > 0.0)
    && Max(c.volume, here) == Max(d.volume, here)
  }

  /** Those differences never reach a returned plane: a volume below the surface is cut off when
      the non-negative shaded wall is subtracted from it. */
  lemma AlikeFinish(c: WallCell, d: WallCell, here: real, walls: real, facesh: real)
    requires WallSettled(c, here) && WallSettled(d, here) && Alike(c, d, here) && walls >= 0.0
    ensures WallFinish(here, walls, facesh, c) == WallFinish(here, walls, facesh, d)
  {
  }

  lemma BlindWallUpdate(here: real, v: View, lag: Lag, c: WallCell)
    requires WallSettled(c, here)
    requires v.temp <= here && v.tempveg <= here && v.tempveg2 <= here && lag.veg <= here && lag.veg2 <= here
    ensures Alike(c, WallUpdate(here, v, lag, c), here)
  {
  }

  /** Body k shows nothing above the cell, neither at its own height nor one climb lower. */
  predicate WallBlind(s: Surfaces, ray: Ray, i: int, j: int, k: nat)
    requires s.Valid() && s.Has(i, j)
  {
    && Blind(s, ray, i, j, k)
    && LookBack(s, ray, i, j, k).veg <= s.a[i][j] && LookBack(s, ray, i, j, k).veg2 <= s.a[i][j]
  }

  /** One climb lower is still past the relief when the previous step already was. */
  lemma NothingBehind(s: Surfaces, ray: Ray, i: int, j: int, k: nat, bound: real)
    requires s.Valid() && s.Has(i, j) && ReliefWithin(s, bound) && ray.dz(k) > bound && LastDz(ray, k) > bound
    requires s.a[i][j] >= 0.0 || Inside(s, ray, i, j, k)
    ensures WallBlind(s, ray, i, j, k)
  {
    NothingInView(s, ray, i, j, k, bound);
    var p, q := i + ray.dx(k), j + ray.dy(k);
    assert s.Has(p, q) ==> s.a[p][q] - s.a[i][j] <= bound;
  }

  /** Accumulators d that come from c by bodies of which at least one read zeros above the cell. */
  predicate Drowned(c: WallCell, d: WallCell) {
    d.f == Max(c.f, 0.0) && d.sh == 1.0 && d.vegsh == 0.0 && (d.vb > 0.0 <==> c.vb > 0.0)
  }

  /** Reading zeros raises the shadow volume of a cell below zero to zero and shades it. */
  lemma OutsideWallUpdate(here: real, v: View, lag: Lag, c: WallCell)
    requires here < 0.0 && WallSettled(c, here) && v == View(0.0, 0.0, 0.0) && lag == Lag(0.0, 0.0)
    ensures Drowned(c, WallUpdate(here, v, lag, c))
  {
  }

  /** Some surplus body n..m-1 leaves the plane. */
  ghost predicate LeavesPlane(s: Surfaces, ray: Ray, i: int, j: int, n: nat, m: nat) {
    exists k :: n <= k < m && !Inside(s, ray, i, j, k)
  }

  ghost predicate StopRelation(s: Surfaces, ray: Ray, i: int, j: int, n: nat, m: nat)
    requires s.Valid() && s.Has(i, j)
  {
    var c, d := WallFold(s, ray, i, j, n), WallFold(s, ray, i, j, m);
    if s.a[i][j] < 0.0 && LeavesPlane(s, ray, i, j, n, m) then Drowned(c, d) else Alike(c, d, s.a[i][j])
  }

  lemma StopStep(s: Surfaces, ray: Ray, i: int, j: int, n: nat, m: nat, bound: real)
    requires s.Valid() && s.Has(i, j) && 1 <= n < m && ReliefWithin(s, bound)
    requires ray.dz(m - 1) > bound && LastDz(ray, m - 1) > bound && StopRelation(s, ray, i, j, n, m - 1)
    ensures StopRelation(s, ray, i, j, n, m)
  {
    var k, here := m - 1, s.a[i][j];
    var c, d := WallFold(s, ray, i, j, n), WallFold(s, ray, i, j, k);
    WallFoldSettles(s, ray, i, j, n);
    WallFoldSettles(s, ray, i, j, k);
    LeavesOneMore(s, ray, i, j, n, k);
    if here >= 0.0 || Inside(s, ray, i, j, k) {
      NothingBehind(s, ray, i, j, k, bound);
      BlindWallUpdate(here, Look(s, ray, i, j, k), LookBack(s, ray, i, j, k), d);
    } else {
      OutsideWallUpdate(here, Look(s, ray, i, j, k), LookBack(s, ray, i, j, k), d);
    }
  }

  lemma LeavesOneMore(s: Surfaces, ray: Ray, i: int, j: int, n: nat, m: nat)
    requires n <= m
    ensures LeavesPlane(s, ray, i, j, n, m + 1) <==> LeavesPlane(s, ray, i, j, n, m) || !Inside(s, ray, i, j, m)
  {
    if LeavesPlane(s, ray, i, j, n, m) {
      var k :| n <= k < m && !Inside(s, ray, i, j, k);
      assert n <= k < m + 1;
    }
  }

  lemma {:induction false} WallStopPoints(s: Surfaces, ray: Ray, i: int, j: int, n: nat, m: nat, bound: real)
    requires s.Valid() && s.Has(i, j) && 1 <= n <= m && ReliefWithin(s, bound)
    requires forall k | n - 1 <= k < m :: ray.dz(k) > bound
    ensures StopRelation(s, ray, i, j, n, m)
    decreases m - n
  {
    if n < m {
      WallStopPoints(s, ray, i, j, n, m - 1, bound);
      StopStep(s, ray, i, j, n, m, bound);
    }
  }

  /** A shadow volume that shades the cell and, unless the wall faces away from the sun, reaches zero
      or the top of the wall. */
  predicate Covers(temp: real, here: real, walls: real, facesh: real) {
    temp > here && (facesh == 1.0 || temp >= 0.0 || temp - here >= walls)
  }

  /** Drowning changes none of the eight planes exactly when the volume covered the wall before. */
  lemma DrownedFinish(c: WallCell, d: WallCell, here: real, walls: real, facesh: real)
    requires here < 0.0 && walls >= 0.0 && WallSettled(c, here) && WallSettled(d, here) && Drowned(c, d)
    ensures WallFinish(here, walls, facesh, c) == WallFinish(here, walls, facesh, d) <==> Covers(c.f, here, walls, facesh)
  {
  }

  /** One of the first n bodies shows the cell a surface that covers its wall. */
  ghost predicate SeesCover(s: Surfaces, ray: Ray, i: int, j: int, walls: real, facesh: real, n: nat)
    requires s.Valid() && s.Has(i, j)
  {
    exists k: nat :: k < n && Covers(Look(s, ray, i, j, k).temp, s.a[i][j], walls, facesh)
  }

  /** The volume covers the wall exactly when one of the bodies showed a covering surface. */
  lemma {:induction false} CoverExactly(s: Surfaces, ray: Ray, i: int, j: int, walls: real, facesh: real, n: nat)
    requires s.Valid() && s.Has(i, j)
    ensures Covers(WallFold(s, ray, i, j, n).f, s.a[i][j], walls, facesh) <==> SeesCover(s, ray, i, j, walls, facesh, n)
  {
    if n > 0 {
      CoverExactly(s, ray, i, j, walls, facesh, n - 1);
      if SeesCover(s, ray, i, j, walls, facesh, n - 1) {
        var k: nat :| k < n - 1 && Covers(Look(s, ray, i, j, k).temp, s.a[i][j], walls, facesh);
        assert SeesCover(s, ray, i, j, walls, facesh, n);
      }
    }
  }

  /** Surplus bodies n..m-1 cannot reach the cell: it is not below zero, none of them leaves the
      plane, or one of the first n bodies shows a surface that covers the wall. */
  ghost predicate WallInert(s: Surfaces, ray: Ray, i: int, j: int, walls: real, facesh: real, n: nat, m: nat)
    requires s.Valid() && s.Has(i, j)
  {
    s.a[i][j] >= 0.0 || !LeavesPlane(s, ray, i, j, n, m) || SeesCover(s, ray, i, j, walls, facesh, n)
  }

  /** Stopping at two amplitudes at or above the relief gives the same eight planes exactly when the
      surplus bodies are inert: in the plane the overshoot body already sees nothing, and neither
      does the lagged look of the next one. */
  lemma WallStopsExactly(s: Surfaces, ray: Ray, low: real, high: real, walls: real, facesh: real, i: int, j: int)
    requires s.Valid() && s.Has(i, j) && ray.Valid() && walls >= 0.0 && ReliefWithin(s, low) && low <= high
    ensures WallMarch(s, ray, low, walls, facesh, i, j) == WallMarch(s, ray, high, walls, facesh, i, j) <==>
            WallInert(s, ray, i, j, walls, facesh, BodyCount(ray, s.rows, s.cols, low), BodyCount(ray, s.rows, s.cols, high))
  {
    assert low >= 0.0;
    SmallerAmplitudeIsPrefix(ray, s.rows, s.cols, low, high);
    var n, m := BodyCount(ray, s.rows, s.cols, low), BodyCount(ray, s.rows, s.cols, high);
    assert ray.Continues(s.rows, s.cols, low, 0) && ray.Continues(s.rows, s.cols, high, 0);
    if n < m {
      forall k | n - 1 <= k < m ensures ray.dz(k) > low {
        assert ray.dz(n - 1) > low;
      }
      WallStopPoints(s, ray, i, j, n, m, low);
      StopsCompared(s, ray, walls, facesh, i, j, n, m);
    }
  }

  lemma StopsCompared(s: Surfaces, ray: Ray, walls: real, facesh: real, i: int, j: int, n: nat, m: nat)
    requires s.Valid() && s.Has(i, j) && walls >= 0.0 && 1 <= n <= m && StopRelation(s, ray, i, j, n, m)
    ensures WallFinish(s.a[i][j], walls, facesh, WallFold(s, ray, i, j, n)) == WallFinish(s.a[i][j], walls, facesh, WallFold(s, ray, i, j, m))
       <==> WallInert(s, ray, i, j, walls, facesh, n, m)
  {
    var c, d := WallFold(s, ray, i, j, n), WallFold(s, ray, i, j, m);
    WallFoldSettles(s, ray, i, j, n);
    WallFoldSettles(s, ray, i, j, m);
    if s.a[i][j] < 0.0 && LeavesPlane(s, ray, i, j, n, m) {
      DrownedFinish(c, d, s.a[i][j], walls, facesh);
      CoverExactly(s, ray, i, j, walls, facesh, n);
    } else {
      AlikeFinish(c, d, s.a[i][j], walls, facesh);
    }
  }

  /** On a scene with no cell below zero any two amplitudes at or above the relief give the same eight
      planes. */
  lemma WallStopIndependence(s: Surfaces, ray: Ray, low: real, high: real, walls: real, facesh: real, i: int, j: int)
    requires s.Valid() && s.Has(i, j) && ray.Valid() && walls >= 0.0
    requires AboveZero(s) && ReliefWithin(s, low) && low <= high
    ensures WallMarch(s, ray, low, walls, facesh, i, j) == WallMarch(s, ray, high, walls, facesh, i, j)
  {
    WallStopsExactly(s, ray, low, high, walls, facesh, i, j);
  }
}
