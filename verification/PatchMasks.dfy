/** How the radiation code reads the three march planes of a sky patch
    (solweig_gpu/solweig.py, `define_patch_characteristics`; solweig_gpu/utci_process.py). */
module PatchMasks {
  import opened Planes
  import opened Rays
  import opened ShadowMarch
  import opened ShadowLaws
  import opened Scenes

  predicate Sky(o: Light) {
    o.sh == 1.0 && o.vegsh == 1.0
  }

  predicate Vegetation(o: Light) {
    o.vegsh == 0.0 || o.vb == 0.0
  }

  /** flag * x, spelled out for the values a flag takes. */
  function Times(flag: real, x: real): real {
    if flag == 0.0 then 0.0 else if flag == 1.0 then x else flag * x
  }

  predicate Building(o: Light) {
    Times(1.0 - o.sh, o.vb) == 1.0
  }

  predicate Reflecting(o: Light) {
    o.sh == 0.0 || o.vegsh == 0.0 || o.vb == 0.0
  }

  /** Fraction of diffuse radiation the patch lets through, canopy transmitting `transVeg`. */
  function Diffuse(o: Light, transVeg: real): real {
    o.sh - Times(1.0 - o.vegsh, 1.0 - transVeg)
  }

  lemma ClassifiedMasks(o: Light, transVeg: real)
    requires Classified(o)
    ensures AsReal(Sky(o)) + AsReal(Vegetation(o)) + AsReal(Building(o)) == 1.0
    ensures Reflecting(o) <==> !Sky(o)
    ensures Diffuse(o, transVeg) == (if Sky(o) then 1.0 else if o.sh == 1.0 then transVeg else 0.0)
  {
  }

  /** Every cell of a patch marched with two or more steps is sky, vegetation or building and only
      one of them, it reflects exactly when it is not sky, and its diffuse fraction is 0, the
      canopy transmissivity or 1. */
  lemma PatchMasksPartition(s: Surfaces, ray: Ray, amplitude: real, transVeg: real, i: int, j: int)
    requires s.Valid() && s.Has(i, j) && ray.Valid() && StepCount(ray, s.rows, s.cols, amplitude) >= 2
    ensures var o := March(s, ray, amplitude, i, j);
            && AsReal(Sky(o)) + AsReal(Vegetation(o)) + AsReal(Building(o)) == 1.0
            && (Reflecting(o) <==> !Sky(o))
            && (Diffuse(o, transVeg) == 0.0 || Diffuse(o, transVeg) == transVeg || Diffuse(o, transVeg) == 1.0)
  {
    OutputsClassified(s, ray, amplitude, i, j);
    ClassifiedMasks(March(s, ray, amplitude, i, j), transVeg);
  }

  /** Which mask it is: sky where neither building nor canopy is seen, building where a building is
      seen and no canopy before it, vegetation otherwise. */
  lemma MasksExactly(s: Surfaces, ray: Ray, amplitude: real, i: int, j: int)
    requires s.Valid() && s.Has(i, j) && ray.Valid() && StepCount(ray, s.rows, s.cols, amplitude) >= 2
    ensures var o, n := March(s, ray, amplitude, i, j), StepCount(ray, s.rows, s.cols, amplitude);
            && (Sky(o) <==> !SeesBuilding(s, ray, i, j, n) && !SeesCanopy(s, ray, i, j, n))
            && (Building(o) <==> SeesBuilding(s, ray, i, j, n) && !CanopyFirst(s, ray, i, j, n))
            && (Vegetation(o) <==> CanopyFirst(s, ray, i, j, n))
  {
    var n := StepCount(ray, s.rows, s.cols, amplitude);
    OutputsExactly(s, ray, i, j, n);
    if SeesCanopy(s, ray, i, j, n) && !SeesBuilding(s, ray, i, j, n) {
      assert CanopyFirst(s, ray, i, j, n);
    }
    if CanopyFirst(s, ray, i, j, n) {
      CanopyStays(s, ray, i, j, n);
    }
  }

  lemma CanopyStays(s: Surfaces, ray: Ray, i: int, j: int, n: nat)
    requires s.Valid() && s.Has(i, j) && CanopyFirst(s, ray, i, j, n)
    ensures SeesCanopy(s, ray, i, j, n)
  {
    var m: nat :| 2 <= m <= n && SeesCanopy(s, ray, i, j, m) && !SeesBuilding(s, ray, i, j, m);
    if !FirstStepRaises(s, ray, i, j) {
      var k: nat :| 2 <= k <= m && CanopyStep(s, ray, i, j, k);
      assert 2 <= k <= n;
    }
  }

  /** Which diffuse fraction it is. */
  lemma DiffuseExactly(s: Surfaces, ray: Ray, amplitude: real, transVeg: real, i: int, j: int)
    requires s.Valid() && s.Has(i, j) && ray.Valid() && StepCount(ray, s.rows, s.cols, amplitude) >= 2
    ensures var n := StepCount(ray, s.rows, s.cols, amplitude);
            Diffuse(March(s, ray, amplitude, i, j), transVeg) ==
            if SeesBuilding(s, ray, i, j, n) then 0.0 else if SeesCanopy(s, ray, i, j, n) then transVeg else 1.0
  {
    OutputsExactly(s, ray, i, j, StepCount(ray, s.rows, s.cols, amplitude));
  }

  /** The diffuse fraction of a one-step march is negative, for every transmissivity below one,
      exactly where the first step raises the vegetation flag and shows a higher surface. */
  lemma OneStepDiffuse(s: Surfaces, ray: Ray, amplitude: real, transVeg: real, i: int, j: int)
    requires s.Valid() && s.Has(i, j) && ray.Valid() && StepCount(ray, s.rows, s.cols, amplitude) == 1
    requires 0.0 <= transVeg < 1.0
    ensures Diffuse(March(s, ray, amplitude, i, j), transVeg) < 0.0 <==>
            FirstStepRaises(s, ray, i, j) && Look(s, ray, i, j, 1).temp > s.a[i][j]
  {
    OneStepValues(s, ray, amplitude, i, j);
    FirstStepEnters(s, ray, i, j);
    assert Fold(s, ray, i, j, 1) == Step(s, ray, i, j, 1, Start(s, i, j));
  }

  /** A scene with a cell not below zero is marched at least one step. */
  lemma LoopIsEntered(m: MarchInputs, ray: Ray, amplitude: real, i: int, j: int)
    requires m.Composed() && ray.Valid() && InGrid(m.rows, m.cols, i, j) && m.a[i][j] >= 0.0 && Admissible(m, amplitude)
    ensures StepCount(ray, m.rows, m.cols, amplitude) >= 1
  {
    MaxBounds(m.a, m.rows, m.cols, i, j);
    assert ray.Continues(m.rows, m.cols, amplitude, 0);
  }

  /** At a stop the code uses, the only step of a one-step march shows no cell at or above zero a
      higher surface. */
  lemma OneStepShadesNothing(m: MarchInputs, ray: Ray, amplitude: real, i: int, j: int)
    requires m.Composed() && ray.Valid() && InGrid(m.rows, m.cols, i, j) && m.a[i][j] >= 0.0
    requires Admissible(m, amplitude) && StepCount(ray, m.rows, m.cols, amplitude) == 1
    ensures Look(m.Marched(), ray, i, j, 1).temp <= m.a[i][j]
  {
    assert !ray.Continues(m.rows, m.cols, amplitude, 1);
    if Inside(m.Marched(), ray, i, j, 1) {
      assert ray.dz(1) > amplitude;
      if RelativeBound(m) <= m.amaxvalue {
        UnclampedRelief(m, amplitude);
        NothingInView(m.Marched(), ray, i, j, 1, amplitude);
      } else {
        ClampedAmplitude(m, amplitude);
        BelowTheStop(m, ray, i, j, 1);
      }
    }
  }

  /** Above the absolute stop every surface in the tile is below zero. */
  lemma BelowTheStop(m: MarchInputs, ray: Ray, i: int, j: int, k: nat)
    requires m.Composed() && Inside(m.Marched(), ray, i, j, k) && ray.dz(k) > m.amaxvalue
    ensures Look(m.Marched(), ray, i, j, k).temp < 0.0
  {
    MaxBounds(m.a, m.rows, m.cols, i + ray.dx(k), j + ray.dy(k));
  }

  /** At every stop between the effective and the absolute one, and for every number of steps, the
      diffuse fraction of a cell not below zero is never negative. */
  lemma DiffuseNotNegative(m: MarchInputs, ray: Ray, amplitude: real, transVeg: real, i: int, j: int)
    requires m.Composed() && m.BushFree() && ray.Valid() && InGrid(m.rows, m.cols, i, j) && m.a[i][j] >= 0.0
    requires Admissible(m, amplitude) && 0.0 <= transVeg <= 1.0
    ensures Diffuse(March(m.Marched(), ray, amplitude, i, j), transVeg) >= 0.0
  {
    var n := StepCount(ray, m.rows, m.cols, amplitude);
    assert n >= 1 by {
      LoopIsEntered(m, ray, amplitude, i, j);
    }
    if n == 1 {
      OneStepShadesNothing(m, ray, amplitude, i, j);
      if transVeg < 1.0 {
        OneStepDiffuse(m.Marched(), ray, amplitude, transVeg, i, j);
      } else {
        OneStepValues(m.Marched(), ray, amplitude, i, j);
        FirstStepEnters(m.Marched(), ray, i, j);
      }
    } else {
      PatchMasksPartition(m.Marched(), ray, amplitude, transVeg, i, j);
    }
  }
}
