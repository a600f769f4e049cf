/** Composed march inputs, the relative height bound, and the amplitudes a march may be stopped
    at (solweig_core/sparse_work.py and the policies of solweig_core/step_tables.py). */
module Scenes {
  import opened Planes
  import opened Rays
  import opened ShadowMarch
  import opened ShadowLaws

  datatype MarchInputs = MarchInputs(
    rows: nat, cols: nat, a: Plane, canopy: Plane, dem: Plane,
    vegdem: Plane, vegdem2: Plane, bush: Plane, vegdsm: Plane, vegdsm2: Plane, amaxvalue: real)
  {
    predicate Shaped() {
      && rows > 0 && cols > 0
      && HasShape(a, rows, cols) && HasShape(canopy, rows, cols) && HasShape(dem, rows, cols)
      && HasShape(vegdem, rows, cols) && HasShape(vegdem2, rows, cols) && HasShape(bush, rows, cols)
      && HasShape(vegdsm, rows, cols) && HasShape(vegdsm2, rows, cols)
    }

    /** The planes the march reads. */
    function Marched(): (s: Surfaces)
      requires Shaped()
      ensures s.Valid()
    {
      Surfaces(rows, cols, a, vegdsm, vegdsm2)
    }

    predicate BushFree()
      requires Shaped()
    {
      forall i, j | 0 <= i < rows && 0 <= j < cols :: bush[i][j] == 0.0
    }

    /** The building surface nowhere dips below the ground. */
    predicate GroundBelow()
      requires Shaped()
    {
      forall i, j | 0 <= i < rows && 0 <= j < cols :: dem[i][j] <= a[i][j]
    }

    /** One cell of every plane is what composition makes of the cell's surface, ground and canopy. */
    predicate CellComposed(i: nat, j: nat)
      requires Shaped() && i < rows && j < cols
    {
      var c := canopy[i][j];
      && c >= 0.0
      && vegdem[i][j] == c + dem[i][j]
      && vegdem2[i][j] == c * 0.25 + dem[i][j]
      && bush[i][j] == BushHeight(vegdem2[i][j], vegdem[i][j])
      && vegdsm[i][j] == ClearIfFlat(c + a[i][j], a[i][j])
      && vegdsm2[i][j] == ClearIfFlat(c * 0.25 + a[i][j], a[i][j])
    }

    ghost predicate Composed() {
      && Shaped()
      && (forall i, j | 0 <= i < rows && 0 <= j < cols :: CellComposed(i, j))
      && amaxvalue == Max(PlaneMax(a, rows, cols), PlaneMax(vegdem, rows, cols))
    }
  }

  /** A vegetation height that does not rise above the surface is stored as zero. */
  function ClearIfFlat(v: real, a: real): real {
    if v == a then 0.0 else v
  }

  /** Vegetation counts as bush where the product of its two heights vanishes. */
  function BushHeight(vegdem2: real, vegdem: real): real {
    if vegdem2 == 0.0 || vegdem == 0.0 then vegdem else 0.0
  }

  function Clamped(p: Plane, rows: nat, cols: nat): (r: Plane)
    requires HasShape(p, rows, cols)
    ensures HasShape(r, rows, cols)
    ensures forall i, j | 0 <= i < rows && 0 <= j < cols :: r[i][j] == Max(p[i][j], 0.0)
  {
    seq(rows, i requires 0 <= i < rows => seq(cols, j requires 0 <= j < cols => Max(p[i][j], 0.0)))
  }

  function Quarter(p: Plane, rows: nat, cols: nat): (r: Plane)
    requires HasShape(p, rows, cols)
    ensures HasShape(r, rows, cols)
    ensures forall i, j | 0 <= i < rows && 0 <= j < cols :: r[i][j] == p[i][j] * 0.25
  {
    seq(rows, i requires 0 <= i < rows => seq(cols, j requires 0 <= j < cols => p[i][j] * 0.25))
  }

  function Cleared(v: Plane, a: Plane, rows: nat, cols: nat): (r: Plane)
    requires HasShape(v, rows, cols) && HasShape(a, rows, cols)
    ensures HasShape(r, rows, cols)
    ensures forall i, j | 0 <= i < rows && 0 <= j < cols :: r[i][j] == ClearIfFlat(v[i][j], a[i][j])
  {
    seq(rows, i requires 0 <= i < rows => seq(cols, j requires 0 <= j < cols => ClearIfFlat(v[i][j], a[i][j])))
  }

  function Bushes(v2: Plane, v: Plane, rows: nat, cols: nat): (r: Plane)
    requires HasShape(v2, rows, cols) && HasShape(v, rows, cols)
    ensures HasShape(r, rows, cols)
    ensures forall i, j | 0 <= i < rows && 0 <= j < cols :: r[i][j] == BushHeight(v2[i][j], v[i][j])
  {
    seq(rows, i requires 0 <= i < rows => seq(cols, j requires 0 <= j < cols => BushHeight(v2[i][j], v[i][j])))
  }

  datatype ComposeError = EmptyPlane | ShapeMismatch

  /** The planes of a scene from building surface, ground and canopy. */
  function Assemble(a: Plane, dem: Plane, canopy: Plane, rows: nat, cols: nat): MarchInputs
    requires rows > 0 && cols > 0 && HasShape(a, rows, cols) && HasShape(dem, rows, cols) && HasShape(canopy, rows, cols)
  {
    var temp1 := Clamped(canopy, rows, cols);
    var quarter := Quarter(temp1, rows, cols);
    var vegdem := Added(temp1, dem, rows, cols);
    var vegdem2 := Added(quarter, dem, rows, cols);
    MarchInputs(rows, cols, a, temp1, dem, vegdem, vegdem2, Bushes(vegdem2, vegdem, rows, cols),
                Cleared(Added(temp1, a, rows, cols), a, rows, cols),
                Cleared(Added(quarter, a, rows, cols), a, rows, cols),
                Max(PlaneMax(a, rows, cols), PlaneMax(vegdem, rows, cols)))
  }

  /** Composition of the march inputs: it succeeds exactly on non-empty planes of one shape, every
      cell is composed, and negative canopy counts as none. */
  function Compose(a: Plane, dem: Plane, canopy: Plane, rows: nat, cols: nat): (r: Result<MarchInputs, ComposeError>)
    requires HasShape(a, rows, cols)
    ensures r.Ok? <==> rows > 0 && cols > 0 && HasShape(dem, rows, cols) && HasShape(canopy, rows, cols)
    ensures r.Ok? ==> r.value.Composed() && r.value.rows == rows && r.value.cols == cols
    ensures r.Ok? ==> r.value.a == a && r.value.dem == dem && r.value.canopy == Clamped(canopy, rows, cols)
  {
    if !HasShape(dem, rows, cols) || !HasShape(canopy, rows, cols) then Err(ShapeMismatch)
    else if rows == 0 || cols == 0 then Err(EmptyPlane)
    else
      AssembleIsComposed(a, dem, canopy, rows, cols);
      Ok(Assemble(a, dem, canopy, rows, cols))
  }

  lemma AssembleIsComposed(a: Plane, dem: Plane, canopy: Plane, rows: nat, cols: nat)
    requires rows > 0 && cols > 0 && HasShape(a, rows, cols) && HasShape(dem, rows, cols) && HasShape(canopy, rows, cols)
    ensures Assemble(a, dem, canopy, rows, cols).Composed()
  {
    forall i, j | 0 <= i < rows && 0 <= j < cols ensures Assemble(a, dem, canopy, rows, cols).CellComposed(i, j) {
      AssembledCell(a, dem, canopy, rows, cols, i, j);
    }
  }

  lemma AssembledCell(a: Plane, dem: Plane, canopy: Plane, rows: nat, cols: nat, i: nat, j: nat)
    requires rows > 0 && cols > 0 && HasShape(a, rows, cols) && HasShape(dem, rows, cols) && HasShape(canopy, rows, cols)
    requires i < rows && j < cols
    ensures Assemble(a, dem, canopy, rows, cols).CellComposed(i, j)
  {
    var temp1 := Clamped(canopy, rows, cols);
    var quarter := Quarter(temp1, rows, cols);
    assert temp1[i][j] >= 0.0 && quarter[i][j] == temp1[i][j] * 0.25;
    assert Added(temp1, dem, rows, cols)[i][j] == temp1[i][j] + dem[i][j];
    assert Added(quarter, dem, rows, cols)[i][j] == quarter[i][j] + dem[i][j];
    assert Added(temp1, a, rows, cols)[i][j] == temp1[i][j] + a[i][j];
    assert Added(quarter, a, rows, cols)[i][j] == quarter[i][j] + a[i][j];
  }

  /** What composition stores, case by case: bare cells carry zero vegetation, the others canopy and a
      quarter of it above the surface; a bush stands exactly where canopy covers ground that lies a
      quarter of its height below zero. */
  lemma CellCases(m: MarchInputs, i: nat, j: nat)
    requires m.Composed() && i < m.rows && j < m.cols
    ensures m.canopy[i][j] == 0.0 ==> m.vegdsm[i][j] == 0.0 && m.vegdsm2[i][j] == 0.0
    ensures m.canopy[i][j] > 0.0 ==> m.vegdsm[i][j] == m.a[i][j] + m.canopy[i][j] && m.vegdsm2[i][j] == m.a[i][j] + m.canopy[i][j] / 4.0
    ensures m.bush[i][j] != 0.0 <==> m.canopy[i][j] > 0.0 && m.canopy[i][j] == -4.0 * m.dem[i][j]
    ensures m.bush[i][j] != 0.0 ==> m.bush[i][j] == 0.75 * m.canopy[i][j]
  {
    assert m.CellComposed(i, j);
  }

  /** max(a, vegdsm, vegdsm2) - min(a) */
  function RelativeBound(m: MarchInputs): real
    requires m.Shaped()
  {
    Max(Max(PlaneMax(m.a, m.rows, m.cols), PlaneMax(m.vegdsm, m.rows, m.cols)), PlaneMax(m.vegdsm2, m.rows, m.cols))
    - PlaneMin(m.a, m.rows, m.cols)
  }

  /** clamp(bound, 0, amaxvalue) */
  function EffectiveAmplitude(m: MarchInputs): real
    requires m.Shaped()
  {
    Min(Max(RelativeBound(m), 0.0), m.amaxvalue)
  }

  lemma BoundIsRelief(m: MarchInputs)
    requires m.Shaped()
    ensures RelativeBound(m) >= 0.0
    ensures ReliefWithin(m.Marched(), RelativeBound(m))
  {
    var s := m.Marched();
    HeightSpread(m, 0, 0, 0, 0);
    forall i, j, p, q | s.Has(i, j) && s.Has(p, q)
      ensures s.a[p][q] - s.a[i][j] <= RelativeBound(m)
      ensures s.veg[p][q] - s.a[i][j] <= RelativeBound(m)
      ensures s.veg2[p][q] - s.a[i][j] <= RelativeBound(m)
    {
      HeightSpread(m, i, j, p, q);
    }
  }

  /** No smaller bound would do. */
  lemma BoundIsLeast(m: MarchInputs, bound: real)
    requires m.Shaped() && ReliefWithin(m.Marched(), bound)
    ensures RelativeBound(m) <= bound
  {
    var s := m.Marched();
    var i, j := MinAttained(m.a, m.rows, m.cols);
    var p, q := MaxAttained(m.a, m.rows, m.cols);
    var u, v := MaxAttained(m.vegdsm, m.rows, m.cols);
    var x, y := MaxAttained(m.vegdsm2, m.rows, m.cols);
    ReliefAt(s, bound, i, j, p, q);
    ReliefAt(s, bound, i, j, u, v);
    ReliefAt(s, bound, i, j, x, y);
  }

  lemma ReliefAt(s: Surfaces, bound: real, i: int, j: int, p: int, q: int)
    requires s.Valid() && ReliefWithin(s, bound) && s.Has(i, j) && s.Has(p, q)
    ensures s.a[p][q] - s.a[i][j] <= bound && s.veg[p][q] - s.a[i][j] <= bound && s.veg2[p][q] - s.a[i][j] <= bound
  {
  }

  lemma MaxAttained(p: Plane, rows: nat, cols: nat) returns (i: int, j: int)
    requires HasShape(p, rows, cols) && rows > 0 && cols > 0
    ensures InGrid(rows, cols, i, j) && p[i][j] == PlaneMax(p, rows, cols)
  {
    i, j :| InGrid(rows, cols, i, j) && p[i][j] == PlaneMax(p, rows, cols);
  }

  lemma MinAttained(p: Plane, rows: nat, cols: nat) returns (i: int, j: int)
    requires HasShape(p, rows, cols) && rows > 0 && cols > 0
    ensures InGrid(rows, cols, i, j) && p[i][j] == PlaneMin(p, rows, cols)
  {
    i, j :| InGrid(rows, cols, i, j) && p[i][j] == PlaneMin(p, rows, cols);
  }

  lemma HeightSpread(m: MarchInputs, i: int, j: int, p: int, q: int)
    requires m.Shaped() && InGrid(m.rows, m.cols, i, j) && InGrid(m.rows, m.cols, p, q)
    ensures m.a[p][q] - m.a[i][j] <= RelativeBound(m)
    ensures m.vegdsm[p][q] - m.a[i][j] <= RelativeBound(m)
    ensures m.vegdsm2[p][q] - m.a[i][j] <= RelativeBound(m)
  {
    MaxBounds(m.a, m.rows, m.cols, p, q);
    MaxBounds(m.vegdsm, m.rows, m.cols, p, q);
    MaxBounds(m.vegdsm2, m.rows, m.cols, p, q);
    MinBounds(m.a, m.rows, m.cols, i, j);
    Spread(PlaneMax(m.a, m.rows, m.cols), PlaneMax(m.vegdsm, m.rows, m.cols), PlaneMax(m.vegdsm2, m.rows, m.cols));
  }

  lemma MaxBounds(p: Plane, rows: nat, cols: nat, i: int, j: int)
    requires HasShape(p, rows, cols) && InGrid(rows, cols, i, j)
    ensures p[i][j] <= PlaneMax(p, rows, cols)
  {
  }

  lemma MinBounds(p: Plane, rows: nat, cols: nat, i: int, j: int)
    requires HasShape(p, rows, cols) && InGrid(rows, cols, i, j)
    ensures PlaneMin(p, rows, cols) <= p[i][j]
  {
  }

  lemma Spread(x: real, y: real, z: real)
    ensures Max(Max(x, y), z) >= x && Max(Max(x, y), z) >= y && Max(Max(x, y), z) >= z
  {
  }

  /** The absolute stop never exceeds the highest plane the march reads. */
  lemma AbsoluteStopBelowTop(m: MarchInputs)
    requires m.Composed() && m.GroundBelow()
    ensures m.amaxvalue <= RelativeBound(m) + PlaneMin(m.a, m.rows, m.cols)
  {
    var rows, cols := m.rows, m.cols;
    var i, j :| InGrid(rows, cols, i, j) && m.vegdem[i][j] == PlaneMax(m.vegdem, rows, cols);
    CanopyBelowTop(m, i, j);
    Spread(PlaneMax(m.a, rows, cols), PlaneMax(m.vegdsm, rows, cols), PlaneMax(m.vegdsm2, rows, cols));
  }

  lemma CanopyBelowTop(m: MarchInputs, i: int, j: int)
    requires m.Composed() && m.GroundBelow() && InGrid(m.rows, m.cols, i, j)
    ensures m.vegdem[i][j] <= Max(PlaneMax(m.a, m.rows, m.cols), PlaneMax(m.vegdsm, m.rows, m.cols))
  {
    assert m.CellComposed(i, j) && m.dem[i][j] <= m.a[i][j];
    assert m.a[i][j] <= PlaneMax(m.a, m.rows, m.cols) && m.vegdsm[i][j] <= PlaneMax(m.vegdsm, m.rows, m.cols);
  }

  /** An unclamped scene has no cell below zero, so the zeros read outside the plane are inert. */
  lemma UnclampedIsAboveZero(m: MarchInputs)
    requires m.Composed() && m.GroundBelow() && RelativeBound(m) <= m.amaxvalue
    ensures AboveZero(m.Marched())
  {
    AbsoluteStopBelowTop(m);
    forall i, j | m.Marched().Has(i, j) ensures m.a[i][j] >= 0.0 {
      assert InGrid(m.rows, m.cols, i, j);
    }
  }

  /** Amplitudes a table may have been executed at: any between the effective and the absolute
      one. The oracle, the effective and both escalated policies choose from this range. */
  predicate Admissible(m: MarchInputs, amplitude: real)
    requires m.Shaped()
  {
    EffectiveAmplitude(m) <= amplitude <= m.amaxvalue
  }

  /** The escalation rule: a first step in (effective, absolute] marches at the absolute stop. */
  function EscalatedAmplitude(m: MarchInputs, ray: Ray): real
    requires m.Shaped()
  {
    if EffectiveAmplitude(m) < ray.dz(1) <= m.amaxvalue then m.amaxvalue else EffectiveAmplitude(m)
  }

  /** What escalation does, in steps: it changes the effective march exactly where that takes a single
      step and the oracle takes more, and then takes the oracle's steps. */
  lemma EscalatesExactly(m: MarchInputs, ray: Ray)
    requires m.Shaped() && ray.Valid()
    ensures var n, o := StepCount(ray, m.rows, m.cols, EffectiveAmplitude(m)), StepCount(ray, m.rows, m.cols, m.amaxvalue);
            StepCount(ray, m.rows, m.cols, EscalatedAmplitude(m, ray)) == if n == 1 < o then o else n
  {
    var low, high := EffectiveAmplitude(m), m.amaxvalue;
    var n, o := StepCount(ray, m.rows, m.cols, low), StepCount(ray, m.rows, m.cols, high);
    if low < ray.dz(1) <= high {
      BoundIsRelief(m);
      assert ray.Continues(m.rows, m.cols, low, 0) && ray.Continues(m.rows, m.cols, high, 0);
      assert !ray.Continues(m.rows, m.cols, low, 1);
      SameCount(ray, m.rows, m.cols, low, 1);
    } else if o >= 2 {
      SecondStep(ray, m.rows, m.cols, high);
    }
  }

  lemma SecondStep(ray: Ray, rows: nat, cols: nat, amplitude: real)
    requires ray.Valid() && StepCount(ray, rows, cols, amplitude) >= 2
    ensures ray.Continues(rows, cols, amplitude, 1)
  {
  }

  /** An admissible amplitude that lets the march take two steps gives the oracle's outputs exactly
      where the surplus steps are inert; on every bush-free scene. */
  lemma AdmissibleExactly(m: MarchInputs, ray: Ray, amplitude: real, i: int, j: int)
    requires m.Shaped() && m.BushFree() && ray.Valid() && InGrid(m.rows, m.cols, i, j)
    requires Admissible(m, amplitude) && StepCount(ray, m.rows, m.cols, amplitude) >= 2
    ensures March(m.Marched(), ray, amplitude, i, j) == March(m.Marched(), ray, m.amaxvalue, i, j)
       <==> SurplusIsInert(m.Marched(), ray, i, j, amplitude, m.amaxvalue)
  {
    if RelativeBound(m) <= m.amaxvalue {
      UnclampedRelief(m, amplitude);
      MarchStopsExactly(m.Marched(), ray, i, j, amplitude, m.amaxvalue);
    } else {
      ClampedAmplitude(m, amplitude);
    }
  }

  lemma ClampedAmplitude(m: MarchInputs, amplitude: real)
    requires m.Shaped() && RelativeBound(m) > m.amaxvalue && Admissible(m, amplitude)
    ensures amplitude == m.amaxvalue == EffectiveAmplitude(m)
  {
  }

  lemma UnclampedRelief(m: MarchInputs, amplitude: real)
    requires m.Shaped() && RelativeBound(m) <= m.amaxvalue && Admissible(m, amplitude)
    ensures ReliefWithin(m.Marched(), amplitude)
    ensures EffectiveAmplitude(m) == RelativeBound(m)
  {
    BoundIsRelief(m);
    RaiseBound(m.Marched(), RelativeBound(m), amplitude);
  }

  lemma RaiseBound(s: Surfaces, low: real, high: real)
    requires s.Valid() && ReliefWithin(s, low) && low <= high
    ensures ReliefWithin(s, high)
  {
  }

  /** Marching at the escalated amplitude gives the oracle's outputs exactly where the surplus
      steps are inert; on every bush-free scene, in every step regime. */
  lemma EscalationExactly(m: MarchInputs, ray: Ray, i: int, j: int)
    requires m.Shaped() && m.BushFree() && ray.Valid() && InGrid(m.rows, m.cols, i, j)
    ensures March(m.Marched(), ray, EscalatedAmplitude(m, ray), i, j) == March(m.Marched(), ray, m.amaxvalue, i, j)
       <==> SurplusIsInert(m.Marched(), ray, i, j, EscalatedAmplitude(m, ray), m.amaxvalue)
  {
    var amplitude := EscalatedAmplitude(m, ray);
    if StepCount(ray, m.rows, m.cols, amplitude) >= 2 {
      AdmissibleExactly(m, ray, amplitude, i, j);
    } else {
      ShortMarchesAgree(m, ray);
    }
  }

  /** No step past the relief can meet a cell below the zeros read outside the plane: the scene is
      clamped, or has no such cell. */
  ghost predicate EdgeInert(m: MarchInputs)
    requires m.Shaped()
  {
    RelativeBound(m) <= m.amaxvalue ==> AboveZero(m.Marched())
  }

  /** Real scenes qualify: their building surface nowhere dips below the ground. */
  lemma GroundBelowIsInert(m: MarchInputs)
    requires m.Composed() && m.GroundBelow()
    ensures EdgeInert(m)
  {
    if RelativeBound(m) <= m.amaxvalue {
      UnclampedIsAboveZero(m);
    }
  }

  lemma AdmissibleIsExact(m: MarchInputs, ray: Ray, amplitude: real, i: int, j: int)
    requires m.Shaped() && m.BushFree() && EdgeInert(m) && ray.Valid() && InGrid(m.rows, m.cols, i, j)
    requires Admissible(m, amplitude) && StepCount(ray, m.rows, m.cols, amplitude) >= 2
    ensures March(m.Marched(), ray, amplitude, i, j) == March(m.Marched(), ray, m.amaxvalue, i, j)
  {
    AdmissibleExactly(m, ray, amplitude, i, j);
    if RelativeBound(m) > m.amaxvalue {
      ClampedAmplitude(m, amplitude);
    }
  }

  /** Marching at the escalated amplitude is exact on every bush-free scene whose ground lies below
      its surface, in every step regime. */
  lemma EscalationIsExact(m: MarchInputs, ray: Ray, i: int, j: int)
    requires m.Composed() && m.BushFree() && m.GroundBelow() && ray.Valid() && InGrid(m.rows, m.cols, i, j)
    ensures March(m.Marched(), ray, EscalatedAmplitude(m, ray), i, j) == March(m.Marched(), ray, m.amaxvalue, i, j)
  {
    GroundBelowIsInert(m);
    if StepCount(ray, m.rows, m.cols, EscalatedAmplitude(m, ray)) >= 2 {
      AdmissibleIsExact(m, ray, EscalatedAmplitude(m, ray), i, j);
    } else {
      ShortMarchesAgree(m, ray);
    }
  }

  /** Fewer than two steps at the escalated amplitude: the oracle takes exactly as many. */
  lemma ShortMarchesAgree(m: MarchInputs, ray: Ray)
    requires m.Shaped() && ray.Valid()
    requires StepCount(ray, m.rows, m.cols, EscalatedAmplitude(m, ray)) < 2
    ensures StepCount(ray, m.rows, m.cols, EscalatedAmplitude(m, ray)) == StepCount(ray, m.rows, m.cols, m.amaxvalue)
  {
    var n := StepCount(ray, m.rows, m.cols, EscalatedAmplitude(m, ray));
    BoundIsRelief(m);
    assert !ray.Continues(m.rows, m.cols, m.amaxvalue, n);
    if n == 1 {
      assert ray.Continues(m.rows, m.cols, EscalatedAmplitude(m, ray), 0);
      assert ray.Continues(m.rows, m.cols, m.amaxvalue, 0);
    }
    SameCount(ray, m.rows, m.cols, m.amaxvalue, n);
  }
}
