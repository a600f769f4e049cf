/** What the sky-patch march guarantees about its outputs, and that steps past the relative
    height bound of the scene cannot change them. */
module ShadowLaws {
  import opened Planes
  import opened Rays
  import opened ShadowMarch

  /** Accumulators after the first step: the vegetation flag was set without looking at the
      building shadow, and the running sum was cleared. */
  predicate Entered(c: Cell, here: real) {
    && c.f >= here && c.sh == AsReal(c.f > here)
    && (c.vegsh == 0.0 || c.vegsh == 1.0) && c.vb == 0.0
  }

  /** Accumulators after at least two steps. */
  predicate Settled(c: Cell, here: real) {
    && c.f >= here && c.sh == AsReal(c.f > here)
    && (c.vegsh == 0.0 || c.vegsh == 1.0) && c.vb >= 0.0
    && !(c.vegsh == 1.0 && c.sh == 1.0)
    && (c.vegsh == 1.0 ==> c.vb > 0.0)
    && (c.vb > 0.0 && c.vegsh == 0.0 ==> c.sh == 1.0)
  }

  lemma FirstStepEnters(s: Surfaces, ray: Ray, i: int, j: int)
    requires s.Valid() && s.Has(i, j)
    ensures Entered(Fold(s, ray, i, j, 1), s.a[i][j])
  {
    assert Fold(s, ray, i, j, 1) == Step(s, ray, i, j, 1, Start(s, i, j));
  }

  lemma LaterStepSettles(here: real, trunk: real, k: nat, dz: real, v: View, c: Cell)
    requires k >= 2 && (Entered(c, here) || Settled(c, here))
    ensures Settled(Update(here, trunk, k, dz, v, c), here)
  {
  }

  lemma {:induction false} FoldSettles(s: Surfaces, ray: Ray, i: int, j: int, n: nat)
    requires s.Valid() && s.Has(i, j) && n >= 2
    ensures Settled(Fold(s, ray, i, j, n), s.a[i][j])
  {
    if n == 2 {
      FirstStepEnters(s, ray, i, j);
    } else {
      FoldSettles(s, ray, i, j, n - 1);
    }
    LaterStepSettles(s.a[i][j], s.veg2[i][j], n, ray.dz(n), Look(s, ray, i, j, n), Fold(s, ray, i, j, n - 1));
  }

  /** The classification every patch consumer relies on. */
  predicate Classified(o: Light) {
    && Binary(o.sh) && Binary(o.vegsh) && Binary(o.vb)
    && !(o.sh == 0.0 && o.vegsh == 0.0)
    && (o.vb == 0.0 ==> o.sh == 0.0 && o.vegsh == 1.0)
  }

  /** With two or more steps the three outputs are binary, building and vegetation shadow exclude
      each other, and a cleared combined flag means building shadow over former canopy shadow. */
  lemma OutputsClassified(s: Surfaces, ray: Ray, amplitude: real, i: int, j: int)
    requires s.Valid() && s.Has(i, j) && ray.Valid()
    requires StepCount(ray, s.rows, s.cols, amplitude) >= 2
    ensures Classified(March(s, ray, amplitude, i, j))
  {
    FoldSettles(s, ray, i, j, StepCount(ray, s.rows, s.cols, amplitude));
  }

  /** What plane p shows the cell during step k. */
  function Shown(s: Surfaces, p: Plane, ray: Ray, i: int, j: int, k: nat): real
    requires HasShape(p, s.rows, s.cols)
  {
    Shifted(p, s.rows, s.cols, i, j, ray.dx(k), ray.dy(k), ray.dz(k))
  }

  /** The trunk at the cell stands above the surface, and the first step shows either a canopy that
      rises above the shown surface by less than the climb (or does not rise at all under a climb of
      over a kilometre), or canopy above the cell with neither trunk nor surface above it. */
  predicate FirstStepRaises(s: Surfaces, ray: Ray, i: int, j: int)
    requires s.Valid() && s.Has(i, j)
  {
    var here, dz := s.a[i][j], ray.dz(1);
    var surface, canopy, trunk := Shown(s, s.a, ray, i, j, 1), Shown(s, s.veg, ray, i, j, 1), Shown(s, s.veg2, ray, i, j, 1);
    && s.veg2[i][j] > here
    && (0.0 < canopy - surface < dz || (canopy <= surface && dz > 1000.0) || (canopy > here >= trunk && surface <= here))
  }

  /** With exactly one step the combined flag is 2 exactly at the raised cells, 1 elsewhere. */
  lemma OneStepValues(s: Surfaces, ray: Ray, amplitude: real, i: int, j: int)
    requires s.Valid() && s.Has(i, j) && ray.Valid()
    requires StepCount(ray, s.rows, s.cols, amplitude) == 1
    ensures March(s, ray, amplitude, i, j).vb == (if FirstStepRaises(s, ray, i, j) then 2.0 else 1.0)
    ensures March(s, ray, amplitude, i, j).vegsh == (if FirstStepRaises(s, ray, i, j) then 0.0 else 1.0)
  {
    assert Fold(s, ray, i, j, 1) == Step(s, ray, i, j, 1, Start(s, i, j));
  }

  // ---------------------------------------------------------------- stop points

  /** No plane rises more than `bound` above any cell of the building surface. */
  ghost predicate ReliefWithin(s: Surfaces, bound: real)
    requires s.Valid()
  {
    forall i, j, p, q | s.Has(i, j) && s.Has(p, q) ::
      && s.a[p][q] - s.a[i][j] <= bound
      && s.veg[p][q] - s.a[i][j] <= bound
      && s.veg2[p][q] - s.a[i][j] <= bound
  }

  ghost predicate AboveZero(s: Surfaces)
    requires s.Valid()
  {
    forall i, j | s.Has(i, j) :: s.a[i][j] >= 0.0
  }

  /** The source of step k for cell (i, j) lies in the plane. */
  predicate Inside(s: Surfaces, ray: Ray, i: int, j: int, k: nat) {
    s.Has(i + ray.dx(k), j + ray.dy(k))
  }

  /** Step k shows the cell nothing above its own surface. */
  predicate Blind(s: Surfaces, ray: Ray, i: int, j: int, k: nat)
    requires s.Valid() && s.Has(i, j)
  {
    var v, here := Look(s, ray, i, j, k), s.a[i][j];
    v.temp <= here && v.tempveg <= here && v.tempveg2 <= here
  }

  /** Step k is blind as far as it reads the plane; outside it reads zeros. */
  predicate BlindInside(s: Surfaces, ray: Ray, i: int, j: int, k: nat)
    requires s.Valid() && s.Has(i, j)
  {
    Inside(s, ray, i, j, k) ==> Blind(s, ray, i, j, k)
  }

  /** Past the relief no plane rises above the cell. */
  lemma NothingInView(s: Surfaces, ray: Ray, i: int, j: int, k: nat, bound: real)
    requires s.Valid() && s.Has(i, j) && ReliefWithin(s, bound) && ray.dz(k) > bound
    ensures BlindInside(s, ray, i, j, k)
    ensures s.a[i][j] >= 0.0 ==> Blind(s, ray, i, j, k)
  {
    var p, q := i + ray.dx(k), j + ray.dy(k);
    assert s.Has(p, q) ==> s.a[p][q] - s.a[i][j] <= bound;
  }

  /** A step that sees nothing only adds the standing flag to the sum. */
  lemma BlindStep(here: real, trunk: real, k: nat, dz: real, v: View, c: Cell)
    requires k >= 2 && Settled(c, here)
    requires v.temp <= here && v.tempveg <= here && v.tempveg2 <= here
    ensures Update(here, trunk, k, dz, v, c) == c.(vb := c.vb + c.vegsh)
  {
  }

  lemma BlindFold(s: Surfaces, ray: Ray, i: int, j: int, m: nat)
    requires s.Valid() && s.Has(i, j) && m >= 3 && BlindInside(s, ray, i, j, m)
    requires s.a[i][j] >= 0.0 || Inside(s, ray, i, j, m)
    ensures Finish(Fold(s, ray, i, j, m)) == Finish(Fold(s, ray, i, j, m - 1))
  {
    var c := Fold(s, ray, i, j, m - 1);
    FoldSettles(s, ray, i, j, m - 1);
    assert Blind(s, ray, i, j, m);
    BlindStep(s.a[i][j], s.veg2[i][j], m, ray.dz(m), Look(s, ray, i, j, m), c);
    SameFinish(c, s.a[i][j]);
  }

  lemma SameFinish(c: Cell, here: real)
    requires Settled(c, here)
    ensures Finish(c.(vb := c.vb + c.vegsh)) == Finish(c)
  {
  }

  /** Once a building shades a cell, nothing a later step sees changes its outputs. */
  lemma ShadedStep(here: real, trunk: real, k: nat, dz: real, v: View, c: Cell)
    requires k >= 2 && Settled(c, here) && c.sh == 1.0
    ensures Finish(Update(here, trunk, k, dz, v, c)) == Finish(c)
  {
  }

  /** A step that leaves the plane shades every cell below zero. */
  lemma OutsideStep(s: Surfaces, ray: Ray, i: int, j: int, m: nat)
    requires s.Valid() && s.Has(i, j) && m >= 3 && s.a[i][j] < 0.0 && !Inside(s, ray, i, j, m)
    ensures Finish(Fold(s, ray, i, j, m)).sh == 0.0
    ensures Finish(Fold(s, ray, i, j, m - 1)).sh == 0.0 ==> Finish(Fold(s, ray, i, j, m)) == Finish(Fold(s, ray, i, j, m - 1))
  {
    var c := Fold(s, ray, i, j, m - 1);
    FoldSettles(s, ray, i, j, m - 1);
    assert Look(s, ray, i, j, m).temp == 0.0;
    if c.sh == 1.0 {
      ShadedStep(s.a[i][j], s.veg2[i][j], m, ray.dz(m), Look(s, ray, i, j, m), c);
    }
  }

  /** Some of the first n steps shows the cell a surface above its own. */
  ghost predicate SeesBuilding(s: Surfaces, ray: Ray, i: int, j: int, n: nat)
    requires s.Valid() && s.Has(i, j)
  {
    exists k: nat :: 1 <= k <= n && Shown(s, s.a, ray, i, j, k) > s.a[i][j]
  }

  /** The march shades a cell exactly when one of its steps shows it a higher surface. */
  lemma {:induction false} ShadedExactly(s: Surfaces, ray: Ray, i: int, j: int, n: nat)
    requires s.Valid() && s.Has(i, j)
    ensures Fold(s, ray, i, j, n).f >= s.a[i][j]
    ensures Fold(s, ray, i, j, n).f > s.a[i][j] <==> SeesBuilding(s, ray, i, j, n)
    ensures Finish(Fold(s, ray, i, j, n)).sh == (if SeesBuilding(s, ray, i, j, n) then 0.0 else 1.0)
  {
    if n > 0 {
      ShadedExactly(s, ray, i, j, n - 1);
      assert Shown(s, s.a, ray, i, j, n) == Look(s, ray, i, j, n).temp;
      if SeesBuilding(s, ray, i, j, n - 1) {
        var k: nat :| 1 <= k <= n - 1 && Shown(s, s.a, ray, i, j, k) > s.a[i][j];
        assert SeesBuilding(s, ray, i, j, n);
      }
    }
  }

  /** Step k shows canopy above the cell and no trunk zone above it. */
  predicate CanopyStep(s: Surfaces, ray: Ray, i: int, j: int, k: nat)
    requires s.Valid() && s.Has(i, j)
  {
    Shown(s, s.veg, ray, i, j, k) > s.a[i][j] >= Shown(s, s.veg2, ray, i, j, k)
  }

  /** The first step raises the cell or one of steps 2..n shows canopy. */
  ghost predicate SeesCanopy(s: Surfaces, ray: Ray, i: int, j: int, n: nat)
    requires s.Valid() && s.Has(i, j)
  {
    FirstStepRaises(s, ray, i, j) || exists k: nat :: 2 <= k <= n && CanopyStep(s, ray, i, j, k)
  }

  lemma CanopyOneMore(s: Surfaces, ray: Ray, i: int, j: int, n: nat)
    requires s.Valid() && s.Has(i, j) && n >= 2
    ensures SeesCanopy(s, ray, i, j, n) <==> SeesCanopy(s, ray, i, j, n - 1) || CanopyStep(s, ray, i, j, n)
  {
    if SeesCanopy(s, ray, i, j, n - 1) && !FirstStepRaises(s, ray, i, j) {
      var k: nat :| 2 <= k <= n - 1 && CanopyStep(s, ray, i, j, k);
      assert 2 <= k <= n;
    }
  }

  /** The vegetation flag after one step: raised or not, whatever the building shadow. */
  lemma FlagAfterOne(s: Surfaces, ray: Ray, i: int, j: int)
    requires s.Valid() && s.Has(i, j)
    ensures Fold(s, ray, i, j, 1).vegsh == (if FirstStepRaises(s, ray, i, j) then 1.0 else 0.0)
  {
    assert Fold(s, ray, i, j, 1) == Step(s, ray, i, j, 1, Start(s, i, j));
  }

  /** From the second step on the vegetation flag stands exactly while canopy has been seen and no
      building has. */
  lemma {:induction false} FlagExactly(s: Surfaces, ray: Ray, i: int, j: int, n: nat)
    requires s.Valid() && s.Has(i, j) && n >= 2
    ensures Fold(s, ray, i, j, n).vegsh == (if SeesCanopy(s, ray, i, j, n) && !SeesBuilding(s, ray, i, j, n) then 1.0 else 0.0)
  {
    CanopyOneMore(s, ray, i, j, n);
    ShadedExactly(s, ray, i, j, n - 1);
    ShadedExactly(s, ray, i, j, n);
    if n == 2 {
      FlagAfterOne(s, ray, i, j);
    } else {
      FlagExactly(s, ray, i, j, n - 1);
      assert SeesBuilding(s, ray, i, j, n - 1) ==> Fold(s, ray, i, j, n).f > s.a[i][j];
    }
  }

  /** By some step m in 2..n canopy had been seen and no building. */
  ghost predicate CanopyFirst(s: Surfaces, ray: Ray, i: int, j: int, n: nat)
    requires s.Valid() && s.Has(i, j)
  {
    exists m: nat :: 2 <= m <= n && SeesCanopy(s, ray, i, j, m) && !SeesBuilding(s, ray, i, j, m)
  }

  /** The running sum is positive exactly when the flag stood after one of the steps 2..n. */
  lemma {:induction false} SumExactly(s: Surfaces, ray: Ray, i: int, j: int, n: nat)
    requires s.Valid() && s.Has(i, j) && n >= 1
    ensures Fold(s, ray, i, j, n).vb >= 0.0
    ensures Fold(s, ray, i, j, n).vb > 0.0 <==> CanopyFirst(s, ray, i, j, n)
  {
    if n == 1 {
      FirstStepEnters(s, ray, i, j);
    } else {
      SumExactly(s, ray, i, j, n - 1);
      FlagExactly(s, ray, i, j, n);
      SumStep(s, ray, i, j, n);
      if CanopyFirst(s, ray, i, j, n - 1) {
        var m: nat :| 2 <= m <= n - 1 && SeesCanopy(s, ray, i, j, m) && !SeesBuilding(s, ray, i, j, m);
        assert 2 <= m <= n;
      }
    }
  }

  lemma SumStep(s: Surfaces, ray: Ray, i: int, j: int, n: nat)
    requires s.Valid() && s.Has(i, j) && n >= 2
    ensures Fold(s, ray, i, j, n).vb == Fold(s, ray, i, j, n - 1).vb + Fold(s, ray, i, j, n).vegsh
  {
  }

  /** What a march of two or more steps returns, read off the heights: the building plane is 0 where
      a step shows a higher surface, the vegetation plane where canopy but no building is seen, and
      the combined plane where a building is seen after canopy. */
  lemma OutputsExactly(s: Surfaces, ray: Ray, i: int, j: int, n: nat)
    requires s.Valid() && s.Has(i, j) && n >= 2
    ensures var building, canopy := SeesBuilding(s, ray, i, j, n), SeesCanopy(s, ray, i, j, n);
            Finish(Fold(s, ray, i, j, n)) == Light(
              if building then 0.0 else 1.0,
              if canopy && !building then 0.0 else 1.0,
              if building && CanopyFirst(s, ray, i, j, n) then 0.0 else 1.0)
  {
    ShadedExactly(s, ray, i, j, n);
    FlagExactly(s, ray, i, j, n);
    SumExactly(s, ray, i, j, n);
    FoldSettles(s, ray, i, j, n);
  }

  /** Steps n+1..m, reading zeros outside the plane, cannot reach the cell: it is not below zero, or
      one of the first n steps shows it a higher surface, or none of the later ones leaves the plane.
      All of it can be read off the heights and the steps before any march. */
  ghost predicate Inert(s: Surfaces, ray: Ray, i: int, j: int, n: nat, m: nat)
    requires s.Valid() && s.Has(i, j)
  {
    || s.a[i][j] >= 0.0
    || SeesBuilding(s, ray, i, j, n)
    || forall k | n < k <= m :: Inside(s, ray, i, j, k)
  }

  /** After two steps, surplus steps that see nothing in the plane leave the outputs unchanged
      exactly when they are inert. */
  lemma {:induction false} StopPointsExactly(s: Surfaces, ray: Ray, i: int, j: int, n: nat, m: nat)
    requires s.Valid() && s.Has(i, j) && 2 <= n <= m && forall k | n < k <= m :: BlindInside(s, ray, i, j, k)
    ensures Finish(Fold(s, ray, i, j, m)) == Finish(Fold(s, ray, i, j, n)) <==> Inert(s, ray, i, j, n, m)
    ensures Finish(Fold(s, ray, i, j, m)) != Finish(Fold(s, ray, i, j, n)) ==> Finish(Fold(s, ray, i, j, m)).sh == 0.0
    decreases m - n
  {
    ShadedExactly(s, ray, i, j, n);
    if n < m {
      StopPointsExactly(s, ray, i, j, n, m - 1);
      if s.a[i][j] >= 0.0 || Inside(s, ray, i, j, m) {
        BlindFold(s, ray, i, j, m);
      } else {
        OutsideStep(s, ray, i, j, m);
      }
    }
  }

  lemma PastRelief(s: Surfaces, ray: Ray, i: int, j: int, n: nat, m: nat, bound: real)
    requires s.Valid() && s.Has(i, j) && ReliefWithin(s, bound) && forall k | n < k <= m :: ray.dz(k) > bound
    ensures forall k | n < k <= m :: BlindInside(s, ray, i, j, k)
  {
    forall k | n < k <= m ensures BlindInside(s, ray, i, j, k) {
      NothingInView(s, ray, i, j, k, bound);
    }
  }

  /** Past the relief and after two steps, on a scene with no cell below zero, stopping now or later
      gives the same outputs. */
  lemma StopPointIndependence(s: Surfaces, ray: Ray, i: int, j: int, n: nat, m: nat, bound: real)
    requires s.Valid() && s.Has(i, j) && 2 <= n <= m
    requires ReliefWithin(s, bound) && AboveZero(s) && forall k | n < k <= m :: ray.dz(k) > bound
    ensures Finish(Fold(s, ray, i, j, m)) == Finish(Fold(s, ray, i, j, n))
  {
    PastRelief(s, ray, i, j, n, m, bound);
    StopPointsExactly(s, ray, i, j, n, m);
  }

  /** Two amplitudes at or above the relief give the same outputs, once a march takes two steps,
      exactly where the surplus steps are inert. */
  lemma MarchStopsExactly(s: Surfaces, ray: Ray, i: int, j: int, low: real, high: real)
    requires s.Valid() && s.Has(i, j) && ray.Valid()
    requires ReliefWithin(s, low) && low <= high && StepCount(ray, s.rows, s.cols, low) >= 2
    ensures March(s, ray, low, i, j) == March(s, ray, high, i, j) <==> SurplusIsInert(s, ray, i, j, low, high)
  {
    SmallerAmplitudeIsPrefix(ray, s.rows, s.cols, low, high);
    var n, m := StepCount(ray, s.rows, s.cols, low), StepCount(ray, s.rows, s.cols, high);
    if n < m {
      PastRelief(s, ray, i, j, n, m, low);
      StopPointsExactly(s, ray, i, j, n, m);
    }
  }

  /** The steps taken only at the higher amplitude are inert. */
  ghost predicate SurplusIsInert(s: Surfaces, ray: Ray, i: int, j: int, low: real, high: real)
    requires s.Valid() && s.Has(i, j) && ray.Valid()
  {
    Inert(s, ray, i, j, StepCount(ray, s.rows, s.cols, low), StepCount(ray, s.rows, s.cols, high))
  }

  // ---------------------------------------------------------------- locality

  ghost predicate SameAt(s: Surfaces, t: Surfaces, i: int, j: int)
    requires s.Valid() && t.Valid() && s.rows == t.rows && s.cols == t.cols && s.Has(i, j)
  {
    s.a[i][j] == t.a[i][j] && s.veg[i][j] == t.veg[i][j] && s.veg2[i][j] == t.veg2[i][j]
  }

  /** Two scenes that agree on the source of step k show the same view of it. */
  lemma SameLook(s: Surfaces, t: Surfaces, ray: Ray, i: int, j: int, k: nat)
    requires s.Valid() && t.Valid() && s.rows == t.rows && s.cols == t.cols
    requires s.Has(i + ray.dx(k), j + ray.dy(k)) ==> SameAt(s, t, i + ray.dx(k), j + ray.dy(k))
    ensures Look(s, ray, i, j, k) == Look(t, ray, i, j, k)
  {
  }

  /** A cell's accumulators depend only on the cell itself and on the views it takes. */
  lemma {:induction false} Locality(s: Surfaces, t: Surfaces, ray: Ray, i: int, j: int, n: nat)
    requires s.Valid() && t.Valid() && s.rows == t.rows && s.cols == t.cols && s.Has(i, j)
    requires SameAt(s, t, i, j)
    requires forall k | 1 <= k <= n :: Look(s, ray, i, j, k) == Look(t, ray, i, j, k)
    ensures Fold(s, ray, i, j, n) == Fold(t, ray, i, j, n)
  {
    if n > 0 {
      Locality(s, t, ray, i, j, n - 1);
      assert Look(s, ray, i, j, n) == Look(t, ray, i, j, n);
    }
  }
}
