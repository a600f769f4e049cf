/** The wall-height march on the scenes of the sparse builder. */
module WallHeightExact {
  import opened Planes
  import opened Rays
  import opened Scenes
  import opened WallHeightMarch

  /** On every bush-free scene an admissible amplitude gives the oracle's eight planes exactly where
      the surplus bodies are inert; unlike the sky-patch march this needs no second step. */
  lemma WallAdmissibleExactly(m: MarchInputs, ray: Ray, amplitude: real, walls: real, facesh: real, i: int, j: int)
    requires m.Shaped() && m.BushFree() && ray.Valid() && InGrid(m.rows, m.cols, i, j) && walls >= 0.0
    requires Admissible(m, amplitude)
    ensures WallMarch(m.Marched(), ray, amplitude, walls, facesh, i, j)
         == WallMarch(m.Marched(), ray, m.amaxvalue, walls, facesh, i, j)
       <==> WallInert(m.Marched(), ray, i, j, walls, facesh,
                      BodyCount(ray, m.rows, m.cols, amplitude), BodyCount(ray, m.rows, m.cols, m.amaxvalue))
  {
    if RelativeBound(m) <= m.amaxvalue {
      UnclampedRelief(m, amplitude);
      WallStopsExactly(m.Marched(), ray, amplitude, m.amaxvalue, walls, facesh, i, j);
    } else {
      ClampedAmplitude(m, amplitude);
    }
  }

  /** Under the edge condition any admissible amplitude gives the oracle's eight planes. */
  lemma WallAdmissibleIsExact(m: MarchInputs, ray: Ray, amplitude: real, walls: real, facesh: real, i: int, j: int)
    requires m.Shaped() && m.BushFree() && EdgeInert(m) && ray.Valid() && InGrid(m.rows, m.cols, i, j) && walls >= 0.0
    requires Admissible(m, amplitude)
    ensures WallMarch(m.Marched(), ray, amplitude, walls, facesh, i, j)
         == WallMarch(m.Marched(), ray, m.amaxvalue, walls, facesh, i, j)
  {
    WallAdmissibleExactly(m, ray, amplitude, walls, facesh, i, j);
    if RelativeBound(m) > m.amaxvalue {
      ClampedAmplitude(m, amplitude);
    }
  }
}
