/** What the wall-height march returns, read off the heights it marches over. */
module WallHeightPlanes {
  import opened Planes
  import opened Rays
  import opened ShadowMarch
  import opened ShadowLaws
  import opened WallHeightMarch

  // ---------------------------------------------------------------- the three shadow planes

  /** Some of the first n bodies shows the cell a surface above its own. */
  ghost predicate BuildingInBodies(s: Surfaces, ray: Ray, i: int, j: int, n: nat)
    requires s.Valid() && s.Has(i, j)
  {
    exists k: nat :: k < n && Shown(s, s.a, ray, i, j, k) > s.a[i][j]
  }

  /** What plane p shows during body k at the height of the body before; body 0 climbs nothing. */
  function ShownLower(s: Surfaces, p: Plane, ray: Ray, i: int, j: int, k: nat): real
    requires HasShape(p, s.rows, s.cols)
  {
    Shifted(p, s.rows, s.cols, i, j, ray.dx(k), ray.dy(k), if k == 0 then 0.0 else ray.dz(k - 1))
  }

  /** During body k the ray meets canopy: at least one of canopy and trunk zone, at this height or one
      climb lower, stands above the cell, but not all four of them. */
  predicate CanopyBody(s: Surfaces, ray: Ray, i: int, j: int, k: nat)
    requires s.Valid() && s.Has(i, j)
  {
    var here := s.a[i][j];
    var canopy, trunk := Shown(s, s.veg, ray, i, j, k) > here, Shown(s, s.veg2, ray, i, j, k) > here;
    var canopyLower, trunkLower := ShownLower(s, s.veg, ray, i, j, k) > here, ShownLower(s, s.veg2, ray, i, j, k) > here;
    (canopy || trunk || canopyLower || trunkLower) && !(canopy && trunk && canopyLower && trunkLower)
  }

  ghost predicate CanopyInBodies(s: Surfaces, ray: Ray, i: int, j: int, n: nat)
    requires s.Valid() && s.Has(i, j)
  {
    exists k: nat :: k < n && CanopyBody(s, ray, i, j, k)
  }

  /** After some number of bodies up to n canopy had been met and no building. */
  ghost predicate CanopyBefore(s: Surfaces, ray: Ray, i: int, j: int, n: nat)
    requires s.Valid() && s.Has(i, j)
  {
    exists m: nat :: 1 <= m <= n && CanopyInBodies(s, ray, i, j, m) && !BuildingInBodies(s, ray, i, j, m)
  }

  lemma HitExactly(s: Surfaces, ray: Ray, i: int, j: int, k: nat)
    requires s.Valid() && s.Has(i, j)
    ensures VegHit(s.a[i][j], Look(s, ray, i, j, k), LookBack(s, ray, i, j, k)) == (if CanopyBody(s, ray, i, j, k) then 1.0 else 0.0)
  {
  }

  lemma OneMoreBody(s: Surfaces, ray: Ray, i: int, j: int, n: nat)
    requires s.Valid() && s.Has(i, j)
    ensures BuildingInBodies(s, ray, i, j, n + 1) <==> BuildingInBodies(s, ray, i, j, n) || Shown(s, s.a, ray, i, j, n) > s.a[i][j]
    ensures CanopyInBodies(s, ray, i, j, n + 1) <==> CanopyInBodies(s, ray, i, j, n) || CanopyBody(s, ray, i, j, n)
  {
    if BuildingInBodies(s, ray, i, j, n) {
      var k: nat :| k < n && Shown(s, s.a, ray, i, j, k) > s.a[i][j];
      assert k < n + 1;
    }
    if CanopyInBodies(s, ray, i, j, n) {
      var k: nat :| k < n && CanopyBody(s, ray, i, j, k);
      assert k < n + 1;
    }
  }

  /** One body of the three flags, given what they were. */
  lemma FlagStep(s: Surfaces, ray: Ray, i: int, j: int, n: nat)
    requires s.Valid() && s.Has(i, j) && n >= 1
    ensures var c, d := WallFold(s, ray, i, j, n - 1), WallFold(s, ray, i, j, n);
            && d.f == Max(c.f, Shown(s, s.a, ray, i, j, n - 1))
            && d.sh == AsReal(d.f > s.a[i][j])
            && d.vegsh == Gate(Max(c.vegsh, if CanopyBody(s, ray, i, j, n - 1) then 1.0 else 0.0), d.sh)
            && d.vb == c.vb + d.vegsh
            && d.volume == Max(c.volume, Shown(s, s.veg, ray, i, j, n - 1))
  {
    HitExactly(s, ray, i, j, n - 1);
  }

  /** A building is seen exactly when the shadow volume rose, and the flag stands exactly while canopy
      has been met and no building has. */
  lemma {:induction false} WallFlagsExactly(s: Surfaces, ray: Ray, i: int, j: int, n: nat)
    requires s.Valid() && s.Has(i, j)
    ensures WallFold(s, ray, i, j, n).f >= s.a[i][j]
    ensures WallFold(s, ray, i, j, n).f > s.a[i][j] <==> BuildingInBodies(s, ray, i, j, n)
    ensures WallFold(s, ray, i, j, n).sh == (if BuildingInBodies(s, ray, i, j, n) then 1.0 else 0.0)
    ensures WallFold(s, ray, i, j, n).vegsh
         == (if CanopyInBodies(s, ray, i, j, n) && !BuildingInBodies(s, ray, i, j, n) then 1.0 else 0.0)
  {
    if n > 0 {
      WallFlagsExactly(s, ray, i, j, n - 1);
      OneMoreBody(s, ray, i, j, n - 1);
      FlagStep(s, ray, i, j, n);
    }
  }

  lemma {:induction false} WallSumExactly(s: Surfaces, ray: Ray, i: int, j: int, n: nat)
    requires s.Valid() && s.Has(i, j)
    ensures WallFold(s, ray, i, j, n).vb >= 0.0
    ensures WallFold(s, ray, i, j, n).vb > 0.0 <==> CanopyBefore(s, ray, i, j, n)
  {
    if n > 0 {
      WallSumExactly(s, ray, i, j, n - 1);
      WallFlagsExactly(s, ray, i, j, n);
      FlagStep(s, ray, i, j, n);
      if CanopyBefore(s, ray, i, j, n - 1) {
        var m: nat :| 1 <= m <= n - 1 && CanopyInBodies(s, ray, i, j, m) && !BuildingInBodies(s, ray, i, j, m);
        assert 1 <= m <= n;
      }
    }
  }

  // ---------------------------------------------------------------- the shadow volumes

  /** h is the highest of `base` and of what plane p shows during the first n bodies. */
  ghost predicate Highest(s: Surfaces, p: Plane, ray: Ray, i: int, j: int, base: real, n: nat, h: real)
    requires HasShape(p, s.rows, s.cols)
  {
    && base <= h && (forall k: nat | k < n :: Shown(s, p, ray, i, j, k) <= h)
    && (h == base || exists k: nat :: k < n && Shown(s, p, ray, i, j, k) == h)
  }

  lemma HighestGrows(s: Surfaces, p: Plane, ray: Ray, i: int, j: int, base: real, n: nat, h: real)
    requires HasShape(p, s.rows, s.cols) && Highest(s, p, ray, i, j, base, n, h)
    ensures Highest(s, p, ray, i, j, base, n + 1, Max(h, Shown(s, p, ray, i, j, n)))
  {
    if h != base {
      var k: nat :| k < n && Shown(s, p, ray, i, j, k) == h;
      assert k < n + 1;
    }
    assert n < n + 1 && Shown(s, p, ray, i, j, n) == Shown(s, p, ray, i, j, n);
  }

  lemma {:induction false} SurfaceIsHighest(s: Surfaces, ray: Ray, i: int, j: int, n: nat)
    requires s.Valid() && s.Has(i, j)
    ensures Highest(s, s.a, ray, i, j, s.a[i][j], n, WallFold(s, ray, i, j, n).f)
  {
    if n > 0 {
      SurfaceIsHighest(s, ray, i, j, n - 1);
      FlagStep(s, ray, i, j, n);
      HighestGrows(s, s.a, ray, i, j, s.a[i][j], n - 1, WallFold(s, ray, i, j, n - 1).f);
    }
  }

  lemma {:induction false} CanopyIsHighest(s: Surfaces, ray: Ray, i: int, j: int, n: nat)
    requires s.Valid() && s.Has(i, j)
    ensures Highest(s, s.veg, ray, i, j, s.veg[i][j], n, WallFold(s, ray, i, j, n).volume)
  {
    if n > 0 {
      CanopyIsHighest(s, ray, i, j, n - 1);
      FlagStep(s, ray, i, j, n);
      HighestGrows(s, s.veg, ray, i, j, s.veg[i][j], n - 1, WallFold(s, ray, i, j, n - 1).volume);
    }
  }

  lemma HighestIsUnique(s: Surfaces, p: Plane, ray: Ray, i: int, j: int, base: real, n: nat, g: real, h: real)
    requires HasShape(p, s.rows, s.cols) && Highest(s, p, ray, i, j, base, n, g) && Highest(s, p, ray, i, j, base, n, h)
    ensures g == h
  {
  }

  // ---------------------------------------------------------------- walls

  /** The shadow planes of a march of n bodies. */
  lemma ShadowPlanesExactly(s: Surfaces, ray: Ray, i: int, j: int, walls: real, facesh: real, n: nat)
    requires s.Valid() && s.Has(i, j) && n >= 1
    ensures var o := WallFinish(s.a[i][j], walls, facesh, WallFold(s, ray, i, j, n));
            var building := BuildingInBodies(s, ray, i, j, n);
            && o.sh == (if building then 0.0 else 1.0)
            && o.vegsh == (if CanopyInBodies(s, ray, i, j, n) && !building then 0.0 else 1.0)
            && o.vb == (if building && CanopyBefore(s, ray, i, j, n) then 0.0 else 1.0)
  {
    WallFlagsExactly(s, ray, i, j, n);
    WallSumExactly(s, ray, i, j, n);
    WallFoldSettles(s, ray, i, j, n);
    if WallFold(s, ray, i, j, n).vegsh == 1.0 {
      assert CanopyInBodies(s, ray, i, j, n) && !BuildingInBodies(s, ray, i, j, n);
    }
    if CanopyBefore(s, ray, i, j, n) {
      CanopyRemains(s, ray, i, j, n);
    }
  }

  lemma CanopyRemains(s: Surfaces, ray: Ray, i: int, j: int, n: nat)
    requires s.Valid() && s.Has(i, j) && CanopyBefore(s, ray, i, j, n)
    ensures CanopyInBodies(s, ray, i, j, n)
  {
    var m: nat :| 1 <= m <= n && CanopyInBodies(s, ray, i, j, m) && !BuildingInBodies(s, ray, i, j, m);
    var k: nat :| k < m && CanopyBody(s, ray, i, j, k);
    assert k < n;
  }

  /** The height of the wall that lies in the shadow of buildings. */
  function InBuildingShade(walls: real, facesh: real, volume: real): real {
    if facesh == 1.0 then walls else Min(walls, volume)
  }

  /** The wall planes from the wall height, the highest surface h and the highest canopy v shown: all
      of a wall that faces away from the sun, and otherwise as much of it as the highest surface
      rises above the cell, lies in building shade; where the cell is in canopy shade only, the canopy
      takes what it rises beyond that; the rest is sunlit. On a wall that faces the sun the three
      parts add up to the wall. */
  lemma WallPlanesExactly(s: Surfaces, ray: Ray, i: int, j: int, walls: real, facesh: real, n: nat, h: real, v: real)
    requires s.Valid() && s.Has(i, j) && n >= 1 && walls >= 0.0
    requires Highest(s, s.a, ray, i, j, s.a[i][j], n, h) && Highest(s, s.veg, ray, i, j, s.veg[i][j], n, v)
    ensures var o := WallFinish(s.a[i][j], walls, facesh, WallFold(s, ray, i, j, n));
            var shaded := InBuildingShade(walls, facesh, h - s.a[i][j]);
            var green := if CanopyInBodies(s, ray, i, j, n) && !BuildingInBodies(s, ray, i, j, n) && walls > 0.0
                         then Max(v - s.a[i][j] - shaded, 0.0) else 0.0;
            && o.wallsh == shaded && o.wallshve == Min(walls, green) && o.wallsun == Max(walls - shaded - green, 0.0)
            && o.facesh == facesh && (o.facesun == 1.0 <==> walls > 0.0 && facesh == 0.0)
            && (facesh != 1.0 ==> o.wallsh + o.wallsun + o.wallshve == walls)
  {
    var c := WallFold(s, ray, i, j, n);
    SurfaceIsHighest(s, ray, i, j, n);
    CanopyIsHighest(s, ray, i, j, n);
    HighestIsUnique(s, s.a, ray, i, j, s.a[i][j], n, h, c.f);
    HighestIsUnique(s, s.veg, ray, i, j, s.veg[i][j], n, v, c.volume);
    WallFlagsExactly(s, ray, i, j, n);
    FinishedWall(s.a[i][j], walls, facesh, c);
  }

  lemma FinishedWall(here: real, walls: real, facesh: real, c: WallCell)
    requires walls >= 0.0 && c.f >= here && Binary(c.vegsh) && (c.vegsh == 1.0 ==> c.f == here)
    ensures var o := WallFinish(here, walls, facesh, c);
            var shaded := InBuildingShade(walls, facesh, c.f - here);
            var green := if c.vegsh == 1.0 && walls > 0.0 then Max(c.volume - here - shaded, 0.0) else 0.0;
            && o.wallsh == shaded && o.wallshve == Min(walls, green) && o.wallsun == Max(walls - shaded - green, 0.0)
            && o.facesh == facesh && (o.facesun == 1.0 <==> walls > 0.0 && facesh == 0.0)
            && (facesh != 1.0 ==> o.wallsh + o.wallsun + o.wallshve == walls)
  {
  }

  // ---------------------------------------------------------------- faces

  function Difference(x: real, y: real): real {
    if x < y then y - x else x - y
  }

  /** The angle between two directions, at most half a turn. */
  function Apart(x: real, y: real, pi: real): real {
    Min(Difference(x, y), 2.0 * pi - Difference(x, y))
  }

  /** The direction a quarter turn clockwise of the azimuth. */
  function QuarterOn(azimuth: real, pi: real): real {
    if azimuth + pi / 2.0 < 2.0 * pi then azimuth + pi / 2.0 else azimuth - 1.5 * pi
  }

  /** A wall faces away from the sun exactly when its aspect is more than a quarter turn from the
      azimuth, for every azimuth; of the two aspects exactly a quarter turn away the clockwise one
      does so when the sun stands in the southern half circle and the other one otherwise. */
  lemma FaceShadeExactly(azimuth: real, pi: real, aspect: real)
    requires pi > 0.0 && 0.0 <= azimuth < 2.0 * pi && 0.0 <= aspect < 2.0 * pi
    ensures var south := pi / 2.0 <= azimuth < 1.5 * pi;
            var away := Apart(azimuth, aspect, pi) > pi / 2.0
                        || (Apart(azimuth, aspect, pi) == pi / 2.0 && (south <==> aspect == QuarterOn(azimuth, pi)));
            && FaceShade(azimuth, pi, aspect, 1.0) == (if away then 1.0 else 0.0)
            && FaceShade(azimuth, pi, aspect, 0.0) == (if away then 1.0 else 0.0) + (if south then 1.0 else 0.0)
  {
  }
}
