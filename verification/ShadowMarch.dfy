/** The sky-patch shadow march (solweig_gpu/shadow.py, `shadow`) for scenes without bushes:
    a per-cell fold over the steps of a ray, and the plane-wise loop that computes it. */
module ShadowMarch {
  import opened Planes
  import opened Rays

  /** The three height planes a march reads. */
  datatype Surfaces = Surfaces(rows: nat, cols: nat, a: Plane, veg: Plane, veg2: Plane) {
    predicate Valid() {
      HasShape(a, rows, cols) && HasShape(veg, rows, cols) && HasShape(veg2, rows, cols)
    }

    predicate Has(i: int, j: int) {
      InGrid(rows, cols, i, j)
    }
  }

  /** What a shifted plane shows at (i, j): the height `dz` below the source cell, or the zero
      the temporary was cleared to when the source lies outside the plane. */
  function Shifted(p: Plane, rows: nat, cols: nat, i: int, j: int, dx: int, dy: int, dz: real): real
    requires HasShape(p, rows, cols)
  {
    if InGrid(rows, cols, i + dx, j + dy) then p[i + dx][j + dy] - dz else 0.0
  }

  /** One cell of the four accumulators. */
  datatype Cell = Cell(f: real, sh: real, vegsh: real, vb: real)

  /** One cell of the three returned planes. */
  datatype Light = Light(sh: real, vegsh: real, vb: real)

  function Start(s: Surfaces, i: int, j: int): Cell
    requires s.Valid() && s.Has(i, j)
  {
    Cell(s.a[i][j], 0.0, 0.0, 0.0)
  }

  /** The three shifted heights one cell sees during step k. */
  datatype View = View(temp: real, tempveg: real, tempveg2: real)

  function Look(s: Surfaces, ray: Ray, i: int, j: int, k: nat): View
    requires s.Valid()
  {
    View(Shifted(s.a, s.rows, s.cols, i, j, ray.dx(k), ray.dy(k), ray.dz(k)),
         Shifted(s.veg, s.rows, s.cols, i, j, ray.dx(k), ray.dy(k), ray.dz(k)),
         Shifted(s.veg2, s.rows, s.cols, i, j, ray.dx(k), ray.dy(k), ray.dz(k)))
  }

  /** Loop body `index == k` at a cell of height `here` with trunk height `trunk`. */
  function Update(here: real, trunk: real, k: nat, dz: real, v: View, c: Cell): Cell {
    var f := Max(c.f, v.temp);
    var sh := AsReal(f > here);
    var seen := Max(c.vegsh, AsReal(v.tempveg > here) - AsReal(v.tempveg2 > here));
    var gated := Gate(seen, sh);
    if k == 1 then
      Cell(f, sh, if trunk <= here then 0.0 else if FirstGap(v.temp, v.tempveg) < dz then 1.0 else gated, 0.0)
    else
      Cell(f, sh, gated, gated + c.vb)
  }

  /** The flag is cleared where its product with the building shadow, a 0/1 value, is positive. */
  function Gate(seen: real, sh: real): real {
    if seen > 0.0 && sh > 0.0 then 0.0 else seen
  }

  /** How far the canopy stands above the building surface on the first step; an empty gap is
      replaced by a height no ray is expected to climb. */
  function FirstGap(temp: real, tempveg: real): real {
    if tempveg - temp <= 0.0 then 1000.0 else tempveg - temp
  }

  function Step(s: Surfaces, ray: Ray, i: int, j: int, k: nat, c: Cell): Cell
    requires s.Valid() && s.Has(i, j)
  {
    Update(s.a[i][j], s.veg2[i][j], k, ray.dz(k), Look(s, ray, i, j, k), c)
  }

  function Fold(s: Surfaces, ray: Ray, i: int, j: int, n: nat): Cell
    requires s.Valid() && s.Has(i, j)
  {
    if n == 0 then Start(s, i, j) else Step(s, ray, i, j, n, Fold(s, ray, i, j, n - 1))
  }

  function Finish(c: Cell): Light {
    var vb := (if c.vb > 0.0 then 1.0 else c.vb) - c.vegsh;
    Light(1.0 - c.sh, 1.0 - (if c.vegsh > 0.0 then 1.0 else c.vegsh), 1.0 - vb)
  }

  /** The whole march at one cell, stopped at `amplitude`. */
  function March(s: Surfaces, ray: Ray, amplitude: real, i: int, j: int): Light
    requires s.Valid() && s.Has(i, j) && ray.Valid()
  {
    Finish(Fold(s, ray, i, j, StepCount(ray, s.rows, s.cols, amplitude)))
  }

  // ---------------------------------------------------------------- the plane-wise loop

  /** Zero a temporary and copy one shifted window into it; both slices have the same extent. */
  method ShiftInto(temp: array2<real>, p: Plane, rows: nat, cols: nat, dx: int, dy: int, dz: real)
    requires HasShape(p, rows, cols) && temp.Length0 == rows && temp.Length1 == cols
    requires Abs(dx) <= rows && Abs(dy) <= cols
    modifies temp
    ensures forall i, j | InGrid(rows, cols, i, j) :: temp[i, j] == Shifted(p, rows, cols, i, j, dx, dy, dz)
  {
    var xc1, xc2 := (dx + Abs(dx)) / 2, rows + (dx - Abs(dx)) / 2;
    var yc1, yc2 := (dy + Abs(dy)) / 2, cols + (dy - Abs(dy)) / 2;
    var xp1, xp2 := -((dx - Abs(dx)) / 2), rows - (dx + Abs(dx)) / 2;
    var yp1, yp2 := -((dy - Abs(dy)) / 2), cols - (dy + Abs(dy)) / 2;
    assert 0 <= xc1 <= xc2 <= rows && 0 <= xp1 <= xp2 <= rows && xc2 - xc1 == xp2 - xp1;
    assert 0 <= yc1 <= yc2 <= cols && 0 <= yp1 <= yp2 <= cols && yc2 - yc1 == yp2 - yp1;
    forall i, j | 0 <= i < rows && 0 <= j < cols {
      temp[i, j] := 0.0;
    }
    forall i, j | xp1 <= i < xp2 && yp1 <= j < yp2 {
      temp[i, j] := p[i - xp1 + xc1][j - yp1 + yc1] - dz;
    }
  }

  /** The four accumulators hold the fold after n steps. */
  ghost predicate Holds(s: Surfaces, ray: Ray, n: nat,
                        f: array2<real>, sh: array2<real>, vegsh: array2<real>, vb: array2<real>)
    requires s.Valid()
    reads f, sh, vegsh, vb
  {
    && f.Length0 == sh.Length0 == vegsh.Length0 == vb.Length0 == s.rows
    && f.Length1 == sh.Length1 == vegsh.Length1 == vb.Length1 == s.cols
    && forall i, j | s.Has(i, j) ::
      Cell(f[i, j], sh[i, j], vegsh[i, j], vb[i, j]) == Fold(s, ray, i, j, n)
  }

  method Shadow(amplitude: real, s: Surfaces, ray: Ray) returns (sh: array2<real>, vegsh: array2<real>, vb: array2<real>)
    requires s.Valid() && ray.Valid()
    ensures fresh(sh) && fresh(vegsh) && fresh(vb)
    ensures sh.Length0 == vegsh.Length0 == vb.Length0 == s.rows
    ensures sh.Length1 == vegsh.Length1 == vb.Length1 == s.cols
    ensures forall i, j | s.Has(i, j) ::
              Light(sh[i, j], vegsh[i, j], vb[i, j]) == March(s, ray, amplitude, i, j)
  {
    var f: array2<real>;
    f, sh, vegsh, vb := MarchPlanes(amplitude, s, ray);
    FinishPlanes(s, ray, StepCount(ray, s.rows, s.cols, amplitude), f, sh, vegsh, vb);
  }

  /** The while loop. */
  method MarchPlanes(amplitude: real, s: Surfaces, ray: Ray)
    returns (f: array2<real>, sh: array2<real>, vegsh: array2<real>, vb: array2<real>)
    requires s.Valid() && ray.Valid()
    ensures fresh(f) && fresh(sh) && fresh(vegsh) && fresh(vb)
    ensures sh != vegsh && sh != vb && vegsh != vb
    ensures Holds(s, ray, StepCount(ray, s.rows, s.cols, amplitude), f, sh, vegsh, vb)
  {
    var rows, cols := s.rows, s.cols;
    var temp, tempveg, tempveg2 := new real[rows, cols], new real[rows, cols], new real[rows, cols];
    f, sh, vegsh, vb := InitialPlanes(s, ray);
    var index, dx, dy, dz := 1, 0, 0, 0.0;
    while amplitude >= dz && Abs(dx) < rows && Abs(dy) < cols
      invariant index >= 1
      invariant dx == ray.dx(index - 1) && dy == ray.dy(index - 1) && dz == ray.dz(index - 1)
      invariant StepsFrom(ray, rows, cols, amplitude, index - 1) == StepCount(ray, rows, cols, amplitude)
      invariant Holds(s, ray, index - 1, f, sh, vegsh, vb)
      decreases ray.Reach(rows, cols) - index
    {
      LoopContinues(ray, rows, cols, amplitude, index);
      dx, dy, dz := ray.dx(index), ray.dy(index), ray.dz(index);
      Advance(s, ray, index, temp, tempveg, tempveg2, f, sh, vegsh, vb);
      index := index + 1;
    }
    assert index - 1 == StepCount(ray, rows, cols, amplitude);
  }

  method InitialPlanes(s: Surfaces, ghost ray: Ray)
    returns (f: array2<real>, sh: array2<real>, vegsh: array2<real>, vb: array2<real>)
    requires s.Valid()
    ensures fresh(f) && fresh(sh) && fresh(vegsh) && fresh(vb)
    ensures f != sh && f != vegsh && f != vb && sh != vegsh && sh != vb && vegsh != vb
    ensures Holds(s, ray, 0, f, sh, vegsh, vb)
  {
    var rows, cols := s.rows, s.cols;
    f := new real[rows, cols]((i, j) requires 0 <= i < rows && 0 <= j < cols => s.a[i][j]);
    sh := new real[rows, cols]((_, _) => 0.0);
    vegsh := new real[rows, cols]((_, _) => 0.0);
    vb := new real[rows, cols]((_, _) => 0.0);
  }

  /** One loop body: shift the three planes, then fold them in. */
  method Advance(s: Surfaces, ray: Ray, index: nat,
                 temp: array2<real>, tempveg: array2<real>, tempveg2: array2<real>,
                 f: array2<real>, sh: array2<real>, vegsh: array2<real>, vb: array2<real>)
    requires s.Valid() && index >= 1 && Abs(ray.dx(index)) <= s.rows && Abs(ray.dy(index)) <= s.cols
    requires temp.Length0 == tempveg.Length0 == tempveg2.Length0 == s.rows
    requires temp.Length1 == tempveg.Length1 == tempveg2.Length1 == s.cols
    requires temp != tempveg && temp != tempveg2 && tempveg != tempveg2
    requires f != sh && f != vegsh && f != vb && sh != vegsh && sh != vb && vegsh != vb
    requires {temp, tempveg, tempveg2} !! {f, sh, vegsh, vb}
    requires Holds(s, ray, index - 1, f, sh, vegsh, vb)
    modifies temp, tempveg, tempveg2, f, sh, vegsh, vb
    ensures Holds(s, ray, index, f, sh, vegsh, vb)
  {
    var dx, dy, dz := ray.dx(index), ray.dy(index), ray.dz(index);
    ShiftInto(tempveg, s.veg, s.rows, s.cols, dx, dy, dz);
    ShiftInto(tempveg2, s.veg2, s.rows, s.cols, dx, dy, dz);
    ShiftInto(temp, s.a, s.rows, s.cols, dx, dy, dz);
    label Shifts:
    assert Holds(s, ray, index - 1, f, sh, vegsh, vb);
    UpdatePlanes(s, ray, index, temp, tempveg, tempveg2, f, sh, vegsh, vb);
    forall i, j | s.Has(i, j)
      ensures Cell(f[i, j], sh[i, j], vegsh[i, j], vb[i, j]) == Fold(s, ray, i, j, index)
    {
      assert old@Shifts(Cell(f[i, j], sh[i, j], vegsh[i, j], vb[i, j])) == Fold(s, ray, i, j, index - 1);
    }
  }

  method FinishPlanes(s: Surfaces, ghost ray: Ray, ghost n: nat, ghost f: array2<real>,
                      sh: array2<real>, vegsh: array2<real>, vb: array2<real>)
    requires s.Valid() && Holds(s, ray, n, f, sh, vegsh, vb)
    requires sh != vegsh && sh != vb && vegsh != vb
    modifies sh, vegsh, vb
    ensures forall i, j | s.Has(i, j) ::
              Light(sh[i, j], vegsh[i, j], vb[i, j]) == Finish(Fold(s, ray, i, j, n))
  {
    var rows, cols := s.rows, s.cols;
    forall i, j | 0 <= i < rows && 0 <= j < cols {
      sh[i, j] := 1.0 - sh[i, j];
    }
    forall i, j | 0 <= i < rows && 0 <= j < cols {
      vb[i, j] := 1.0 - ((if vb[i, j] > 0.0 then 1.0 else vb[i, j]) - vegsh[i, j]);
    }
    forall i, j | 0 <= i < rows && 0 <= j < cols {
      vegsh[i, j] := 1.0 - (if vegsh[i, j] > 0.0 then 1.0 else vegsh[i, j]);
    }
  }

  /** The tensor statements of one loop body, plane by plane. */
  method UpdatePlanes(s: Surfaces, ray: Ray, index: nat,
                      temp: array2<real>, tempveg: array2<real>, tempveg2: array2<real>,
                      f: array2<real>, sh: array2<real>, vegsh: array2<real>, vb: array2<real>)
    requires s.Valid() && index >= 1
    requires temp.Length0 == tempveg.Length0 == tempveg2.Length0 == s.rows
    requires temp.Length1 == tempveg.Length1 == tempveg2.Length1 == s.cols
    requires f.Length0 == sh.Length0 == vegsh.Length0 == vb.Length0 == s.rows
    requires f.Length1 == sh.Length1 == vegsh.Length1 == vb.Length1 == s.cols
    requires f != sh && f != vegsh && f != vb && sh != vegsh && sh != vb && vegsh != vb
    requires {temp, tempveg, tempveg2} !! {f, sh, vegsh, vb}
    requires forall i, j | s.Has(i, j) ::
               View(temp[i, j], tempveg[i, j], tempveg2[i, j]) == Look(s, ray, i, j, index)
    modifies f, sh, vegsh, vb
    ensures forall i, j | s.Has(i, j) ::
              Cell(f[i, j], sh[i, j], vegsh[i, j], vb[i, j])
              == Step(s, ray, i, j, index, old(Cell(f[i, j], sh[i, j], vegsh[i, j], vb[i, j])))
  {
    RaiseBuildings(s, temp, f, sh);
    RaiseVegetation(s, tempveg, tempveg2, sh, vegsh, vb);
    if index == 1 {
      ResetFirstStep(s, ray.dz(1), temp, tempveg, vegsh, vb);
    }
  }

  method RaiseBuildings(s: Surfaces, temp: array2<real>, f: array2<real>, sh: array2<real>)
    requires s.Valid() && temp.Length0 == f.Length0 == sh.Length0 == s.rows
    requires temp.Length1 == f.Length1 == sh.Length1 == s.cols
    requires f != sh && temp != f && temp != sh
    modifies f, sh
    ensures forall i, j | s.Has(i, j) ::
              f[i, j] == Max(old(f[i, j]), temp[i, j]) && sh[i, j] == AsReal(f[i, j] > s.a[i][j])
  {
    var rows, cols := s.rows, s.cols;
    forall i, j | 0 <= i < rows && 0 <= j < cols {
      f[i, j] := Max(f[i, j], temp[i, j]);
    }
    forall i, j | 0 <= i < rows && 0 <= j < cols {
      sh[i, j] := AsReal(f[i, j] > s.a[i][j]);
    }
  }

  method RaiseVegetation(s: Surfaces, tempveg: array2<real>, tempveg2: array2<real>,
                         sh: array2<real>, vegsh: array2<real>, vb: array2<real>)
    requires s.Valid()
    requires tempveg.Length0 == tempveg2.Length0 == sh.Length0 == vegsh.Length0 == vb.Length0 == s.rows
    requires tempveg.Length1 == tempveg2.Length1 == sh.Length1 == vegsh.Length1 == vb.Length1 == s.cols
    requires vegsh != vb && {tempveg, tempveg2, sh} !! {vegsh, vb}
    modifies vegsh, vb
    ensures forall i, j | s.Has(i, j) ::
              && vegsh[i, j] == Gate(Max(old(vegsh[i, j]), AsReal(tempveg[i, j] > s.a[i][j]) - AsReal(tempveg2[i, j] > s.a[i][j])), sh[i, j])
              && vb[i, j] == vegsh[i, j] + old(vb[i, j])
  {
    var rows, cols := s.rows, s.cols;
    forall i, j | 0 <= i < rows && 0 <= j < cols {
      vegsh[i, j] := Max(vegsh[i, j], AsReal(tempveg[i, j] > s.a[i][j]) - AsReal(tempveg2[i, j] > s.a[i][j]));
    }
    forall i, j | 0 <= i < rows && 0 <= j < cols {
      vegsh[i, j] := Gate(vegsh[i, j], sh[i, j]);
    }
    forall i, j | 0 <= i < rows && 0 <= j < cols {
      vb[i, j] := vegsh[i, j] + vb[i, j];
    }
  }

  method ResetFirstStep(s: Surfaces, dz: real, temp: array2<real>, tempveg: array2<real>,
                        vegsh: array2<real>, vb: array2<real>)
    requires s.Valid() && temp.Length0 == tempveg.Length0 == vegsh.Length0 == vb.Length0 == s.rows
    requires temp.Length1 == tempveg.Length1 == vegsh.Length1 == vb.Length1 == s.cols
    requires vegsh != vb && {temp, tempveg} !! {vegsh, vb}
    modifies vegsh, vb
    ensures forall i, j | s.Has(i, j) ::
              && vb[i, j] == 0.0
              && vegsh[i, j] == if s.veg2[i][j] <= s.a[i][j] then 0.0 else if FirstGap(temp[i, j], tempveg[i, j]) < dz then 1.0 else old(vegsh[i, j])
  {
    var rows, cols := s.rows, s.cols;
    forall i, j | 0 <= i < rows && 0 <= j < cols {
      vegsh[i, j] := if FirstGap(temp[i, j], tempveg[i, j]) < dz then 1.0 else vegsh[i, j];
    }
    forall i, j | 0 <= i < rows && 0 <= j < cols {
      vegsh[i, j] := vegsh[i, j] * AsReal(s.veg2[i][j] > s.a[i][j]);
    }
    forall i, j | 0 <= i < rows && 0 <= j < cols {
      vb[i, j] := 0.0;
    }
  }
}
