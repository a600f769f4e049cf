/** Concrete composed scenes showing that the side conditions of the march laws cannot be dropped. */
module Witnesses {
  import opened Planes
  import opened Rays
  import opened ShadowMarch
  import opened ShadowLaws
  import opened Scenes
  import opened PatchMasks

  /** A ray along the columns that climbs `rise` per cell. */
  function Eastward(rise: real): Ray {
    Bearing(true, 1, 1, 0.0, rise).Steps()
  }

  lemma EastwardValid(rise: real)
    requires rise > 0.0
    ensures Eastward(rise).Valid()
    ensures forall k: nat :: Eastward(rise).dx(k) == 0 && Eastward(rise).dy(k) == k
  {
    var b := Bearing(true, 1, 1, 0.0, rise);
    BearingStepsValid(b);
    forall k: nat ensures b.Dx(k) == 0 {
      NoSidestep(b, k);
    }
  }

  lemma {:induction false} NoSidestep(b: Bearing, k: nat)
    requires b.ratio == 0.0
    ensures b.Along(k) == 0.0 && b.Minor(k) == 0
  {
    if k > 0 {
      NoSidestep(b, k - 1);
    }
  }

  lemma UnitDz(k: nat)
    ensures Eastward(1.0).dz(k) == k as real
  {
    StepClosedForms(Bearing(true, 1, 1, 0.0, 1.0), k);
  }

  /** A ray that climbs 1 m per cell takes one step more than its amplitude has metres, unless the
      row ends first. */
  lemma UnitCount(cols: nat, metres: nat)
    requires cols > 0
    ensures Eastward(1.0).Valid()
    ensures StepCount(Eastward(1.0), 1, cols, metres as real) == if metres + 1 < cols then metres + 1 else cols
  {
    var ray, n := Eastward(1.0), if metres + 1 < cols then metres + 1 else cols;
    EastwardValid(1.0);
    forall k: nat ensures ray.dz(k) == k as real {
      UnitDz(k);
    }
    var amplitude := metres as real;
    assert forall l | 0 <= l < n :: ray.Continues(1, cols, amplitude, l);
    SameCount(ray, 1, cols, metres as real, n);
  }

  /** A ray steeper than the stop takes a single step. */
  lemma SteepCount(rise: real, cols: nat, amplitude: real)
    requires cols > 1 && 0.0 <= amplitude < rise
    ensures Eastward(rise).Valid() && Eastward(rise).dz(1) == rise && StepCount(Eastward(rise), 1, cols, amplitude) == 1
  {
    EastwardValid(rise);
    var b, ray := Bearing(true, 1, 1, 0.0, rise), Eastward(rise);
    assert b.Dz(0) == 0.0 && b.Dz(1) == rise;
    assert ray.Continues(1, cols, amplitude, 0) && !ray.Continues(1, cols, amplitude, 1);
    SameCount(ray, 1, cols, amplitude, 1);
  }

  /** Composition of a single row. */
  lemma RowScene(a: seq<real>, dem: seq<real>, canopy: seq<real>) returns (m: MarchInputs)
    requires |a| == |dem| == |canopy| > 0 && forall j | 0 <= j < |canopy| :: canopy[j] >= 0.0
    ensures m.Composed() && m.rows == 1 && m.cols == |a| && m.a[0] == a && m.dem[0] == dem && m.canopy[0] == canopy
  {
    m := Compose([a], [dem], [canopy], 1, |a|).value;
    assert forall j | 0 <= j < |a| :: m.canopy[0][j] == canopy[j];
  }

  // ---------------------------------------------------------------- one-step marches

  /** One row of two cells on the level under a 4 m canopy. */
  ghost predicate Grove(m: MarchInputs) {
    && m.Composed() && m.rows == 1 && m.cols == 2
    && m.a[0] == [0.0, 0.0] && m.dem[0] == [0.0, 0.0] && m.canopy[0] == [4.0, 4.0]
  }

  lemma GroveExists() returns (m: MarchInputs)
    ensures Grove(m)
  {
    m := RowScene([0.0, 0.0], [0.0, 0.0], [4.0, 4.0]);
  }

  lemma GroveFacts(m: MarchInputs)
    requires Grove(m)
    ensures m.amaxvalue == 4.0 && m.BushFree() && m.GroundBelow()
    ensures m.vegdsm[0][1] == 4.0 && m.vegdsm2[0][0] == 1.0 && m.vegdsm2[0][1] == 1.0
  {
    forall j | 0 <= j < 2 ensures m.vegdem[0][j] == 4.0 && m.vegdsm[0][j] == 4.0 && m.vegdsm2[0][j] == 1.0 && m.bush[0][j] == 0.0 {
      assert m.CellComposed(0, j);
    }
    ConstantMax(m.a, 2, 0.0);
    ConstantMax(m.vegdem, 2, 4.0);
  }

  /** One step suffices for the value 2: a 4 m grove, marched at its absolute stop along a ray that
      climbs 5 m per cell. Such a cell cannot be packed. */
  lemma OneStepReachesTwo() returns (m: MarchInputs)
    ensures m.Composed() && m.BushFree() && m.GroundBelow() && m.rows == 1 && m.cols == 2
    ensures Eastward(5.0).Valid() && StepCount(Eastward(5.0), 1, 2, m.amaxvalue) == 1
    ensures March(m.Marched(), Eastward(5.0), m.amaxvalue, 0, 0).vb == 2.0
    ensures !Classified(March(m.Marched(), Eastward(5.0), m.amaxvalue, 0, 0))
  {
    m := GroveExists();
    GroveFacts(m);
    SteepCount(5.0, 2, 4.0);
    EastwardValid(5.0);
    RaisedGrove(m, Eastward(5.0));
    OneStepValues(m.Marched(), Eastward(5.0), 4.0, 0, 0);
  }

  lemma RaisedGrove(m: MarchInputs, ray: Ray)
    requires m.Shaped() && m.rows == 1 && m.cols == 2 && m.a[0][0] == m.a[0][1] == 0.0
    requires m.vegdsm[0][1] == 4.0 && m.vegdsm2[0][0] == 1.0
    requires ray.dx(1) == 0 && ray.dy(1) == 1 && ray.dz(1) == 5.0
    ensures FirstStepRaises(m.Marched(), ray, 0, 0)
  {
    assert Look(m.Marched(), ray, 0, 0, 1).temp == -5.0 && Look(m.Marched(), ray, 0, 0, 1).tempveg == -1.0;
  }

  /** One row of three cells rising out of a ravine, ground at its bottom, 1 m of canopy halfway up. */
  ghost predicate Ravine(m: MarchInputs) {
    && m.Composed() && m.rows == 1 && m.cols == 3
    && m.a[0] == [-10.0, -5.0, 1.0] && m.dem[0] == [-10.0, -10.0, -10.0] && m.canopy[0] == [0.0, 1.0, 0.0]
  }

  lemma RavineExists() returns (m: MarchInputs)
    ensures Ravine(m)
  {
    m := RowScene([-10.0, -5.0, 1.0], [-10.0, -10.0, -10.0], [0.0, 1.0, 0.0]);
  }

  lemma RavineFacts(m: MarchInputs)
    requires Ravine(m)
    ensures m.amaxvalue == 1.0 && m.BushFree() && m.GroundBelow()
    ensures m.vegdsm[0][1] == -4.0 && m.vegdsm2[0][0] == 0.0
  {
    assert m.CellComposed(0, 0) && m.CellComposed(0, 1) && m.CellComposed(0, 2);
    MaxBounds(m.a, 1, 3, 0, 2);
  }

  /** Below zero the diffuse fraction can be negative, at the absolute stop and with the ground below
      the surface: the bottom of the ravine is shaded by its side and by the canopy on it. */
  lemma NegativeDiffuse(transVeg: real) returns (m: MarchInputs)
    requires 0.0 <= transVeg < 1.0
    ensures m.Composed() && m.BushFree() && m.GroundBelow() && m.rows == 1 && m.cols == 3
    ensures Eastward(2.0).Valid() && StepCount(Eastward(2.0), 1, 3, m.amaxvalue) == 1
    ensures Diffuse(March(m.Marched(), Eastward(2.0), m.amaxvalue, 0, 0), transVeg) < 0.0
  {
    m := RavineExists();
    RavineFacts(m);
    SteepCount(2.0, 3, 1.0);
    EastwardValid(2.0);
    RaisedRavine(m, Eastward(2.0));
    OneStepDiffuse(m.Marched(), Eastward(2.0), 1.0, transVeg, 0, 0);
  }

  lemma RaisedRavine(m: MarchInputs, ray: Ray)
    requires m.Shaped() && m.rows == 1 && m.cols == 3 && m.a[0][0] == -10.0 && m.a[0][1] == -5.0
    requires m.vegdsm[0][1] == -4.0 && m.vegdsm2[0][0] == 0.0
    requires ray.dx(1) == 0 && ray.dy(1) == 1 && ray.dz(1) == 2.0
    ensures FirstStepRaises(m.Marched(), ray, 0, 0) && Look(m.Marched(), ray, 0, 0, 1).temp > m.a[0][0]
  {
    assert Look(m.Marched(), ray, 0, 0, 1).temp == -7.0 && Look(m.Marched(), ray, 0, 0, 1).tempveg == -6.0;
  }

  // ---------------------------------------------------------------- below zero

  /** One row of four cells: surface 1 m below zero, ground at 5 m, no canopy. */
  ghost predicate Sunken(m: MarchInputs) {
    && m.Composed() && m.rows == 1 && m.cols == 4
    && forall j | 0 <= j < 4 :: m.a[0][j] == -1.0 && m.dem[0][j] == 5.0 && m.canopy[0][j] == 0.0
  }

  lemma SunkenExists() returns (m: MarchInputs)
    ensures Sunken(m)
  {
    m := RowScene([-1.0, -1.0, -1.0, -1.0], [5.0, 5.0, 5.0, 5.0], [0.0, 0.0, 0.0, 0.0]);
  }

  lemma ConstantMax(p: Plane, cols: nat, v: real)
    requires HasShape(p, 1, cols) && cols > 0 && forall j | 0 <= j < cols :: p[0][j] == v
    ensures PlaneMax(p, 1, cols) == v
  {
  }

  lemma ConstantMin(p: Plane, cols: nat, v: real)
    requires HasShape(p, 1, cols) && cols > 0 && forall j | 0 <= j < cols :: p[0][j] == v
    ensures PlaneMin(p, 1, cols) == v
  {
  }

  lemma SunkenCells(m: MarchInputs, j: nat)
    requires Sunken(m) && j < 4
    ensures m.vegdem[0][j] == 5.0 && m.vegdsm[0][j] == 0.0 && m.vegdsm2[0][j] == 0.0 && m.bush[0][j] == 0.0
  {
    assert m.CellComposed(0, j);
  }

  lemma SunkenAmplitudes(m: MarchInputs)
    requires Sunken(m)
    ensures m.amaxvalue == 5.0 && RelativeBound(m) == 1.0 && EffectiveAmplitude(m) == 1.0
  {
    forall j: nat | j < 4 ensures m.vegdem[0][j] == 5.0 && m.vegdsm[0][j] == 0.0 && m.vegdsm2[0][j] == 0.0 {
      SunkenCells(m, j);
    }
    ConstantMax(m.a, 4, -1.0);
    ConstantMin(m.a, 4, -1.0);
    ConstantMax(m.vegdem, 4, 5.0);
    ConstantMax(m.vegdsm, 4, 0.0);
    ConstantMax(m.vegdsm2, 4, 0.0);
  }

  /** On an unclamped scene with cells below zero the escalated amplitude is not exact: the absolute
      stop marches on until the zeros outside the tile stand above the sunken surface. */
  lemma GroundMustBeBelow(m: MarchInputs)
    requires Sunken(m)
    ensures !m.GroundBelow() && !EdgeInert(m) && Eastward(1.0).Valid()
    ensures March(m.Marched(), Eastward(1.0), EscalatedAmplitude(m, Eastward(1.0)), 0, 0)
         != March(m.Marched(), Eastward(1.0), m.amaxvalue, 0, 0)
  {
    SunkenAmplitudes(m);
    UnitCount(4, 1);
    UnitCount(4, 5);
    UnitDz(1);
    UnitDz(2);
    EastwardValid(1.0);
    assert m.dem[0][0] == 5.0 && m.a[0][0] == -1.0 && m.Marched().Has(0, 0);
    ShortSight(m, Eastward(1.0));
    FarSight(m, Eastward(1.0));
  }

  lemma ShortSight(m: MarchInputs, ray: Ray)
    requires m.Composed() && m.rows == 1 && m.cols == 4 && m.a[0][0] == m.a[0][1] == m.a[0][2] == -1.0
    requires ray.dx(1) == 0 && ray.dx(2) == 0 && ray.dy(1) == 1 && ray.dy(2) == 2 && ray.dz(1) == 1.0 && ray.dz(2) == 2.0
    ensures Finish(Fold(m.Marched(), ray, 0, 0, 2)).sh == 1.0
  {
    var s := m.Marched();
    assert Look(s, ray, 0, 0, 1).temp == -2.0 && Look(s, ray, 0, 0, 2).temp == -3.0;
    assert Fold(s, ray, 0, 0, 0).f == -1.0;
    assert Fold(s, ray, 0, 0, 1).f == -1.0;
    assert Fold(s, ray, 0, 0, 2).f == -1.0;
  }

  lemma FarSight(m: MarchInputs, ray: Ray)
    requires m.Composed() && m.rows == 1 && m.cols == 4 && m.a[0][0] == -1.0 && ray.dx(4) == 0 && ray.dy(4) == 4
    ensures Finish(Fold(m.Marched(), ray, 0, 0, 4)).sh == 0.0
  {
    assert Look(m.Marched(), ray, 0, 0, 4).temp == 0.0;
  }
}
