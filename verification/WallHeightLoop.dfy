/** The while loop of the wall-height march. The source rebinds whole planes here instead of
    updating them in place, and so does this model. */
module WallHeightLoop {
  import opened Planes
  import opened Rays
  import opened ShadowMarch
  import opened WallHeightMarch

  function ShiftedPlane(p: Plane, rows: nat, cols: nat, dx: int, dy: int, dz: real): (r: Plane)
    requires HasShape(p, rows, cols)
    ensures HasShape(r, rows, cols)
    ensures forall i, j | 0 <= i < rows && 0 <= j < cols :: r[i][j] == Shifted(p, rows, cols, i, j, dx, dy, dz)
  {
    seq(rows, i requires 0 <= i < rows => seq(cols, j requires 0 <= j < cols => Shifted(p, rows, cols, i, j, dx, dy, dz)))
  }

  function MaxPlane(p: Plane, q: Plane, rows: nat, cols: nat): (r: Plane)
    requires HasShape(p, rows, cols) && HasShape(q, rows, cols)
    ensures HasShape(r, rows, cols)
    ensures forall i, j | 0 <= i < rows && 0 <= j < cols :: r[i][j] == Max(p[i][j], q[i][j])
  {
    seq(rows, i requires 0 <= i < rows => seq(cols, j requires 0 <= j < cols => Max(p[i][j], q[i][j])))
  }

  function AbovePlane(p: Plane, a: Plane, rows: nat, cols: nat): (r: Plane)
    requires HasShape(p, rows, cols) && HasShape(a, rows, cols)
    ensures HasShape(r, rows, cols)
    ensures forall i, j | 0 <= i < rows && 0 <= j < cols :: r[i][j] == AsReal(p[i][j] > a[i][j])
  {
    seq(rows, i requires 0 <= i < rows => seq(cols, j requires 0 <= j < cols => AsReal(p[i][j] > a[i][j])))
  }

  function HitPlane(p: Plane, rows: nat, cols: nat): (r: Plane)
    requires HasShape(p, rows, cols)
    ensures HasShape(r, rows, cols)
    ensures forall i, j | 0 <= i < rows && 0 <= j < cols :: r[i][j] == HitOf(p[i][j])
  {
    seq(rows, i requires 0 <= i < rows => seq(cols, j requires 0 <= j < cols => HitOf(p[i][j])))
  }

  function GatePlane(p: Plane, sh: Plane, rows: nat, cols: nat): (r: Plane)
    requires HasShape(p, rows, cols) && HasShape(sh, rows, cols)
    ensures HasShape(r, rows, cols)
    ensures forall i, j | 0 <= i < rows && 0 <= j < cols :: r[i][j] == Gate(p[i][j], sh[i][j])
  {
    seq(rows, i requires 0 <= i < rows => seq(cols, j requires 0 <= j < cols => Gate(p[i][j], sh[i][j])))
  }

  /** The five accumulator planes. */
  datatype WallPlanes = WallPlanes(f: Plane, volume: Plane, sh: Plane, vegsh: Plane, vb: Plane) {
    predicate Shaped(rows: nat, cols: nat) {
      && HasShape(f, rows, cols) && HasShape(volume, rows, cols) && HasShape(sh, rows, cols)
      && HasShape(vegsh, rows, cols) && HasShape(vb, rows, cols)
    }

    function At(rows: nat, cols: nat, i: nat, j: nat): WallCell
      requires Shaped(rows, cols) && i < rows && j < cols
    {
      WallCell(f[i][j], volume[i][j], sh[i][j], vegsh[i][j], vb[i][j])
    }
  }

  /** Hits of the four comparisons of one body. */
  method VegetationHits(s: Surfaces, dx: int, dy: int, dz: real, dzprev: real) returns (hits: Plane, tempveg: Plane)
    requires s.Valid()
    ensures HasShape(hits, s.rows, s.cols)
    ensures tempveg == ShiftedPlane(s.veg, s.rows, s.cols, dx, dy, dz)
    ensures forall i, j | 0 <= i < s.rows && 0 <= j < s.cols ::
              hits[i][j] == HitOf(AsReal(tempveg[i][j] > s.a[i][j])
                                  + AsReal(Shifted(s.veg2, s.rows, s.cols, i, j, dx, dy, dz) > s.a[i][j])
                                  + AsReal(Shifted(s.veg, s.rows, s.cols, i, j, dx, dy, dzprev) > s.a[i][j])
                                  + AsReal(Shifted(s.veg2, s.rows, s.cols, i, j, dx, dy, dzprev) > s.a[i][j]))
  {
    var rows, cols := s.rows, s.cols;
    tempveg := ShiftedPlane(s.veg, rows, cols, dx, dy, dz);
    var fabovea := AbovePlane(tempveg, s.a, rows, cols);
    var gabovea := AbovePlane(ShiftedPlane(s.veg2, rows, cols, dx, dy, dz), s.a, rows, cols);
    var lastf := AbovePlane(ShiftedPlane(s.veg, rows, cols, dx, dy, dzprev), s.a, rows, cols);
    var lastg := AbovePlane(ShiftedPlane(s.veg2, rows, cols, dx, dy, dzprev), s.a, rows, cols);
    var sum := Added(Added(Added(fabovea, gabovea, rows, cols), lastf, rows, cols), lastg, rows, cols);
    hits := HitPlane(sum, rows, cols);
  }

  /** One loop body. */
  method WallBody(s: Surfaces, ray: Ray, index: nat, dzprev: real, c: WallPlanes) returns (d: WallPlanes)
    requires s.Valid() && c.Shaped(s.rows, s.cols) && dzprev == LastDz(ray, index)
    ensures d.Shaped(s.rows, s.cols)
    ensures forall i, j | 0 <= i < s.rows && 0 <= j < s.cols ::
              d.At(s.rows, s.cols, i, j)
              == WallUpdate(s.a[i][j], Look(s, ray, i, j, index), LookBack(s, ray, i, j, index), c.At(s.rows, s.cols, i, j))
  {
    var rows, cols := s.rows, s.cols;
    var dx, dy, dz := ray.dx(index), ray.dy(index), ray.dz(index);
    var temp := ShiftedPlane(s.a, rows, cols, dx, dy, dz);
    var hits, tempveg := VegetationHits(s, dx, dy, dz, dzprev);
    var f := MaxPlane(c.f, temp, rows, cols);
    var volume := MaxPlane(c.volume, tempveg, rows, cols);
    var sh := AbovePlane(f, s.a, rows, cols);
    var vegsh := GatePlane(MaxPlane(c.vegsh, hits, rows, cols), sh, rows, cols);
    d := WallPlanes(f, volume, sh, vegsh, Added(c.vb, vegsh, rows, cols));
  }

  ghost predicate WallHolds(s: Surfaces, ray: Ray, n: nat, c: WallPlanes)
    requires s.Valid()
  {
    && c.Shaped(s.rows, s.cols)
    && forall i, j | 0 <= i < s.rows && 0 <= j < s.cols :: c.At(s.rows, s.cols, i, j) == WallFold(s, ray, i, j, n)
  }

  lemma WallBodyHolds(s: Surfaces, ray: Ray, n: nat, c: WallPlanes, d: WallPlanes)
    requires s.Valid() && WallHolds(s, ray, n, c) && d.Shaped(s.rows, s.cols)
    requires forall i, j | 0 <= i < s.rows && 0 <= j < s.cols ::
               d.At(s.rows, s.cols, i, j)
               == WallUpdate(s.a[i][j], Look(s, ray, i, j, n), LookBack(s, ray, i, j, n), c.At(s.rows, s.cols, i, j))
    ensures WallHolds(s, ray, n + 1, d)
  {
    forall i, j | 0 <= i < s.rows && 0 <= j < s.cols
      ensures d.At(s.rows, s.cols, i, j) == WallFold(s, ray, i, j, n + 1)
    {
      assert c.At(s.rows, s.cols, i, j) == WallFold(s, ray, i, j, n);
    }
  }

  function ZeroPlane(rows: nat, cols: nat): (r: Plane)
    ensures HasShape(r, rows, cols)
    ensures forall i, j | 0 <= i < rows && 0 <= j < cols :: r[i][j] == 0.0
  {
    seq(rows, _ => seq(cols, _ => 0.0))
  }

  /** Runs the loop and leaves the accumulators of every cell. */
  method WallLoop(s: Surfaces, ray: Ray, amplitude: real) returns (c: WallPlanes)
    requires s.Valid() && ray.Valid()
    ensures WallHolds(s, ray, BodyCount(ray, s.rows, s.cols, amplitude), c)
  {
    var rows, cols := s.rows, s.cols;
    c := WallPlanes(s.a, s.veg, ZeroPlane(rows, cols), ZeroPlane(rows, cols), ZeroPlane(rows, cols));
    var index, dx, dy, dz, dzprev := 0, 0, 0, 0.0, 0.0;
    ghost var entered := ray.Continues(rows, cols, amplitude, 0);
    while amplitude >= dz && Abs(dx) < rows && Abs(dy) < cols
      invariant index == 0 ==> dx == 0 && dy == 0 && dz == 0.0
      invariant index > 0 ==> entered && dx == ray.dx(index - 1) && dy == ray.dy(index - 1) && dz == ray.dz(index - 1)
      invariant index > 0 ==> StepsFrom(ray, rows, cols, amplitude, index - 1) == StepCount(ray, rows, cols, amplitude)
      invariant dzprev == LastDz(ray, index)
      invariant WallHolds(s, ray, index, c)
      decreases ray.Reach(rows, cols) + 1 - index
    {
      if index > 0 {
        LoopContinues(ray, rows, cols, amplitude, index);
      }
      var d := WallBody(s, ray, index, dzprev, c);
      WallBodyHolds(s, ray, index, c, d);
      c := d;
      dx, dy, dz := ray.dx(index), ray.dy(index), ray.dz(index);
      dzprev := dz;
      index := index + 1;
    }
  }

  function FinishedPlane(s: Surfaces, walls: Plane, facesh: Plane, c: WallPlanes): (r: seq<seq<WallLight>>)
    requires s.Valid() && c.Shaped(s.rows, s.cols) && HasShape(walls, s.rows, s.cols) && HasShape(facesh, s.rows, s.cols)
    ensures HasShape(r, s.rows, s.cols)
    ensures forall i, j | 0 <= i < s.rows && 0 <= j < s.cols ::
              r[i][j] == WallFinish(s.a[i][j], walls[i][j], facesh[i][j], c.At(s.rows, s.cols, i, j))
  {
    seq(s.rows, i requires 0 <= i < s.rows => seq(s.cols, j requires 0 <= j < s.cols =>
      WallFinish(s.a[i][j], walls[i][j], facesh[i][j], c.At(s.rows, s.cols, i, j))))
  }

  function FaceShadePlane(azimuth: real, pi: real, aspect: Plane, walls: Plane, rows: nat, cols: nat): (r: Plane)
    requires HasShape(aspect, rows, cols) && HasShape(walls, rows, cols)
    ensures HasShape(r, rows, cols)
    ensures forall i, j | 0 <= i < rows && 0 <= j < cols ::
              r[i][j] == FaceShade(azimuth, pi, aspect[i][j], AsReal(walls[i][j] > 0.0))
  {
    seq(rows, i requires 0 <= i < rows => seq(cols, j requires 0 <= j < cols =>
      FaceShade(azimuth, pi, aspect[i][j], AsReal(walls[i][j] > 0.0))))
  }

  /** The whole routine: the eight returned planes, cell by cell. */
  method ShadowingWallHeight23(s: Surfaces, ray: Ray, amplitude: real, walls: Plane, aspect: Plane, azimuth: real, pi: real)
    returns (out: seq<seq<WallLight>>)
    requires s.Valid() && ray.Valid() && HasShape(walls, s.rows, s.cols) && HasShape(aspect, s.rows, s.cols)
    ensures HasShape(out, s.rows, s.cols)
    ensures forall i, j | 0 <= i < s.rows && 0 <= j < s.cols ::
              out[i][j] == WallMarch(s, ray, amplitude, walls[i][j],
                                     FaceShade(azimuth, pi, aspect[i][j], AsReal(walls[i][j] > 0.0)), i, j)
  {
    var c := WallLoop(s, ray, amplitude);
    var facesh := FaceShadePlane(azimuth, pi, aspect, walls, s.rows, s.cols);
    out := FinishedPlane(s, walls, facesh, c);
  }
}
